/**
 * The invalidate handler (functions/api/lottery/invalidate.js): withdraw one
 * win record, put its winner back into the candidate pool and give the prize
 * back one unit of stock.
 *
 * As written, the handler authenticates with the admin password and works on
 * the un-prefixed keys 'winners', 'prizes' and 'excludedIds', while the draw
 * handler writes under the tenant's keys; `OnRequestPostForTenant` is the same
 * step on the tenant's keys.
 */
module Invalidate {
  import opened Types
  import IdSets
  import Kv
  import Auth
  import opened Store
  import Invariants
  import Draw

  /** The three values the handler stores after a withdrawal. */
  datatype Invalidated = Invalidated(winners: seq<WinRecord>, prizes: seq<Prize>, excluded: seq<string>)

  /** `winners.findIndex(w => w.id === id)`. */
  function FindRecord(winners: seq<WinRecord>, id: string): (r: int)
    ensures -1 <= r < |winners|
    ensures r == -1 <==> forall w :: w in winners ==> w.id != id
    ensures 0 <= r ==> winners[r].id == id && forall j :: 0 <= j < r ==> winners[j].id != id
  {
    if winners == [] then -1
    else if winners[0].id == id then 0
    else
      var r := FindRecord(winners[1..], id);
      assert forall w :: w in winners ==> w == winners[0] || w in winners[1..];
      assert forall j :: 0 < j < |winners| ==> winners[j] == winners[1..][j - 1];
      if r == -1 then -1 else r + 1
  }

  /** The withdrawal on one set of stored values (the roster is not read). */
  function InvalidateOn(s: Snapshot, id: string): (r: Result<Invalidated>)
    ensures r.Err? <==> forall w :: w in s.winners ==> w.id != id
    ensures r.Err? ==> r.error == RecordNotFound
  {
    var i := FindRecord(s.winners, id);
    if i == -1 then Err(RecordNotFound) else Ok(WithdrawAt(s, i))
  }

  /** The withdrawal of the record at position i, once it has been found. */
  function WithdrawAt(s: Snapshot, i: nat): Invalidated
    requires i < |s.winners|
  {
    var w := s.winners[i];
    var pi := Draw.FindPrize(s.prizes, w.prizeId);
    var prizes := if pi == -1 then s.prizes
                  else s.prizes[pi := s.prizes[pi].(remaining := s.prizes[pi].remaining + 1)];
    Invalidated(s.winners[..i] + s.winners[i + 1..], prizes, IdSets.Delete(s.excluded, w.winnerId))
  }

  /** What a withdrawal does: exactly the first record with the id leaves and
      the others keep their order; only that winner's id leaves the excluded
      set; the record's prize, if still listed, gets one unit back, unclamped,
      and every other prize is unchanged. */
  lemma WithdrawalEffect(s: Snapshot, id: string)
    requires InvalidateOn(s, id).Ok?
    ensures
      var r := InvalidateOn(s, id).value;
      var i := FindRecord(s.winners, id);
      var w := s.winners[i];
      var pi := Draw.FindPrize(s.prizes, w.prizeId);
      && 0 <= i && w.id == id && (forall j :: 0 <= j < i ==> s.winners[j].id != id)
      && r.winners == s.winners[..i] + s.winners[i + 1..]
      && |r.winners| == |s.winners| - 1
      && (forall x :: x in r.excluded <==> x in s.excluded && x != w.winnerId)
      && (Distinct(s.excluded) ==> Distinct(r.excluded))
      && |r.prizes| == |s.prizes|
      && (pi == -1 ==> r.prizes == s.prizes)
      && (pi != -1 ==> r.prizes[pi] == s.prizes[pi].(remaining := s.prizes[pi].remaining + 1))
      && (forall j :: 0 <= j < |s.prizes| && j != pi ==> r.prizes[j] == s.prizes[j])
  {
    InvalidateOnAt(s, id, FindRecord(s.winners, id));
  }

  /** Removing the record at position i removes position i of the winner ids. */
  lemma RemoveRecordIds(ws: seq<WinRecord>, i: nat)
    requires i < |ws|
    ensures WinnerIds(ws[..i] + ws[i + 1..]) == WinnerIds(ws)[..i] + WinnerIds(ws)[i + 1..]
  {
  }

  /** Removing one position keeps a sequence duplicate-free. */
  lemma RemoveKeepsDistinct<T>(s: seq<T>, i: nat)
    requires i < |s| && Distinct(s)
    ensures Distinct(s[..i] + s[i + 1..])
  {
    var s' := s[..i] + s[i + 1..];
    forall a, b | 0 <= a < b < |s'| ensures s'[a] != s'[b] {
      DistinctAt(s, if a < i then a else a + 1, if b < i then b else b + 1);
    }
  }

  /** In a duplicate-free sequence, removing position i removes exactly the value there. */
  lemma RemoveMembers<T>(s: seq<T>, i: nat, x: T)
    requires i < |s| && Distinct(s)
    ensures x in s[..i] + s[i + 1..] <==> x in s && x != s[i]
  {
    var s' := s[..i] + s[i + 1..];
    if x in s' {
      var k :| 0 <= k < |s'| && s'[k] == x;
      var j := if k < i then k else k + 1;
      assert s[j] == x;
      DistinctAt(s, j, i);
    }
    if x in s && x != s[i] {
      var j :| 0 <= j < |s| && s[j] == x;
      assert s'[if j < i then j else j - 1] == x;
    }
  }

  /** Removing a record for the prize at position pi and giving that prize one
      unit back keeps every prize's `count - remaining` equal to its records. */
  lemma RestockKeepsCounts(prizes: seq<Prize>, ws: seq<WinRecord>, i: nat, pi: nat)
    requires i < |ws| && pi < |prizes| && prizes[pi].id == ws[i].prizeId
    requires Distinct(PrizeIds(prizes))
    requires Invariants.StockMatches(prizes, ws)
    ensures
      var prizes' := prizes[pi := prizes[pi].(remaining := prizes[pi].remaining + 1)];
      Invariants.StockMatches(prizes', ws[..i] + ws[i + 1..])
  {
    var prizes' := prizes[pi := prizes[pi].(remaining := prizes[pi].remaining + 1)];
    forall j | 0 <= j < |prizes'|
      ensures prizes'[j].count - prizes'[j].remaining == CountFor(ws[..i] + ws[i + 1..], prizes'[j].id)
    {
      CountForRemove(ws, i, prizes'[j].id);
      if j != pi {
        assert PrizeIds(prizes)[j] != PrizeIds(prizes)[pi];
      }
    }
  }

  /** Withdrawing a record keeps the books consistent: the withdrawn winner's id
      was theirs alone, so leaving the excluded set matches leaving the winners,
      and the one record fewer for the prize matches the one unit back. */
  lemma InvalidatePreservesConsistency(s: Snapshot, id: string, r: Invalidated)
    requires Invariants.Consistent(s.prizes, s.winners, s.excluded)
    requires InvalidateOn(s, id) == Ok(r)
    ensures Invariants.Consistent(r.prizes, r.winners, r.excluded)
  {
    var i := FindRecord(s.winners, id);
    InvalidateOnAt(s, id, i);
    WithdrawAtKeepsConsistency(s, i);
  }

  /** Withdrawing a record keeps the winners' ids unique and the excluded ids
      equal, as a set, to the winners' ids: the withdrawn winner's id was
      theirs alone, so it leaves both. Nothing about prizes is assumed. */
  lemma InvalidateKeepsExcludedWinners(s: Snapshot, id: string, r: Invalidated)
    requires Distinct(WinnerIds(s.winners))
    requires forall x :: x in s.excluded <==> x in WinnerIds(s.winners)
    requires InvalidateOn(s, id) == Ok(r)
    ensures Distinct(WinnerIds(r.winners))
    ensures forall x :: x in r.excluded <==> x in WinnerIds(r.winners)
  {
    var i := FindRecord(s.winners, id);
    InvalidateOnAt(s, id, i);
    var ids := WinnerIds(s.winners);
    RemoveRecordIds(s.winners, i);
    RemoveKeepsDistinct(ids, i);
    assert ids[i] == s.winners[i].winnerId;
    assert r.excluded == IdSets.Delete(s.excluded, ids[i]);
    forall x ensures x in r.excluded <==> x in WinnerIds(r.winners) {
      RemoveMembers(ids, i, x);
    }
  }

  /** The withdrawal at a position keeps consistent books consistent; under
      consistency the record's prize is listed, so it is the one restocked. */
  lemma WithdrawAtKeepsConsistency(s: Snapshot, i: nat)
    requires i < |s.winners|
    ensures Invariants.Consistent(s.prizes, s.winners, s.excluded) ==>
            var r := WithdrawAt(s, i); Invariants.Consistent(r.prizes, r.winners, r.excluded)
  {
    if Invariants.Consistent(s.prizes, s.winners, s.excluded) {
      var w := s.winners[i];
      assert w.prizeId in PrizeIds(s.prizes);
      ListedPrizeIsFound(s.prizes, w.prizeId);
      var pi := Draw.FindPrize(s.prizes, w.prizeId);
      WithdrawAtFound(s, i, pi);
      WithdrawalKeepsConsistency(s.prizes, s.winners, s.excluded, i, pi, WithdrawAt(s, i));
    }
  }

  /** The withdrawal at position i when the record's prize is listed at pi. */
  lemma WithdrawAtFound(s: Snapshot, i: nat, pi: nat)
    requires i < |s.winners| && pi < |s.prizes|
    requires Draw.FindPrize(s.prizes, s.winners[i].prizeId) == pi
    ensures WithdrawAt(s, i) == Invalidated(s.winners[..i] + s.winners[i + 1..],
      s.prizes[pi := s.prizes[pi].(remaining := s.prizes[pi].remaining + 1)],
      IdSets.Delete(s.excluded, s.winners[i].winnerId))
  {
  }

  /** The consistency argument on the values themselves: the record at i leaves,
      its winner's id leaves the excluded set, its prize at pi gets a unit back. */
  lemma WithdrawalKeepsConsistency(prizes: seq<Prize>, ws: seq<WinRecord>, excluded: seq<string>,
                                   i: nat, pi: nat, r: Invalidated)
    requires i < |ws| && pi < |prizes| && prizes[pi].id == ws[i].prizeId
    requires r == Invalidated(ws[..i] + ws[i + 1..],
                              prizes[pi := prizes[pi].(remaining := prizes[pi].remaining + 1)],
                              IdSets.Delete(excluded, ws[i].winnerId))
    ensures Invariants.Consistent(prizes, ws, excluded) ==> Invariants.Consistent(r.prizes, r.winners, r.excluded)
  {
    if !Invariants.Consistent(prizes, ws, excluded) {
      return;
    }
    var ws' := ws[..i] + ws[i + 1..];
    var prizes' := prizes[pi := prizes[pi].(remaining := prizes[pi].remaining + 1)];
    RemoveRecordIds(ws, i);
    RemoveKeepsDistinct(WinnerIds(ws), i);
    IdSets.DeleteAt(excluded, i);
    RestockKeepsCounts(prizes, ws, i, pi);
    RestockKeepsIds(prizes, pi);
    forall k | 0 <= k < |ws'| ensures ws'[k].prizeId in PrizeIds(prizes') {
      assert ws'[k] == ws[if k < i then k else k + 1];
    }
  }

  lemma ListedPrizeIsFound(prizes: seq<Prize>, pid: string)
    requires pid in PrizeIds(prizes)
    ensures Draw.FindPrize(prizes, pid) != -1
  {
    var k :| 0 <= k < |prizes| && PrizeIds(prizes)[k] == pid;
    assert prizes[k] in prizes;
  }

  lemma RestockKeepsIds(prizes: seq<Prize>, pi: nat)
    requires pi < |prizes|
    ensures PrizeIds(prizes[pi := prizes[pi].(remaining := prizes[pi].remaining + 1)]) == PrizeIds(prizes)
  {
  }

  /** Nothing clamps the stock given back: a record left over for a prize at
      full stock lifts its remaining above its count. */
  lemma RestockIsUnclamped()
    ensures
      var prize := Prize("p1", "Mug", 1, 1, "participation", "参与奖");
      var record := WinRecord("r1", "p1", "Mug", "participation", "参与奖", "u1", "Ann", "A1", "t");
      var r := InvalidateOn(Snapshot([], [prize], [record], ["u1"]), "r1");
      r.Ok? && r.value.prizes[0].remaining == 2 > r.value.prizes[0].count
  {
    var prize := Prize("p1", "Mug", 1, 1, "participation", "参与奖");
    var record := WinRecord("r1", "p1", "Mug", "participation", "参与奖", "u1", "Ann", "A1", "t");
    assert Draw.FindPrize([prize], "p1") == 0;
    assert FindRecord([record], "r1") == 0;
  }

  /** `onRequestPost` as written: admin password, un-prefixed keys. */
  method OnRequestPost(env: Auth.Env, token: string, kv: KvStore?, id: string)
    returns (res: Result<()>)
    modifies kv
    ensures !Auth.AdminAuthorized(env, token) ==>
      res == Err(Unauthorized) && (kv != null ==> kv.entries == old(kv.entries))
    ensures Auth.AdminAuthorized(env, token) && kv == null ==> res == Err(StorageUnavailable)
    ensures Auth.AdminAuthorized(env, token) && kv != null ==>
      var out := InvalidateOn(Load(old(kv.entries), Kv.GlobalKeys), id);
      && (out.Err? ==> res == Err(out.error) && kv.entries == old(kv.entries))
      && (out.Ok? ==>
            res == Ok(()) &&
            kv.entries == Save(old(kv.entries), Kv.GlobalKeys, out.value.prizes, out.value.winners, out.value.excluded))
  {
    if !Auth.AdminAuthorized(env, token) {
      return Err(Unauthorized);
    }
    if kv == null {
      return Err(StorageUnavailable);
    }
    res := Withdraw(kv, Kv.GlobalKeys, id);
  }

  /** The same step on the keys of the tenant whose password the token is,
      as the draw handler resolves them. */
  method OnRequestPostForTenant(env: Auth.Env, token: string, kv: KvStore?, id: string)
    returns (res: Result<()>)
    modifies kv
    ensures Auth.FindTokenByPassword(env, token).None? ==>
      res == Err(Unauthorized) && (kv != null ==> kv.entries == old(kv.entries))
    ensures Auth.FindTokenByPassword(env, token).Some? && kv == null ==> res == Err(StorageUnavailable)
    ensures Auth.FindTokenByPassword(env, token).Some? && kv != null ==>
      var keys := Kv.TokenKeys(Auth.FindTokenByPassword(env, token).value.id);
      var out := InvalidateOn(Load(old(kv.entries), keys), id);
      && (out.Err? ==> res == Err(out.error) && kv.entries == old(kv.entries))
      && (out.Ok? ==>
            res == Ok(()) &&
            kv.entries == Save(old(kv.entries), keys, out.value.prizes, out.value.winners, out.value.excluded))
  {
    var tokenConfig := Auth.FindTokenByPassword(env, token);
    if tokenConfig.None? {
      return Err(Unauthorized);
    }
    if kv == null {
      return Err(StorageUnavailable);
    }
    res := Withdraw(kv, Kv.TokenKeys(tokenConfig.value.id), id);
  }

  /** The body after the checks: find, splice, un-exclude, restock, save. */
  method Withdraw(kv: KvStore, keys: Kv.Keys, id: string) returns (res: Result<()>)
    modifies kv
    ensures
      var out := InvalidateOn(Load(old(kv.entries), keys), id);
      && (out.Err? ==> res == Err(out.error) && kv.entries == old(kv.entries))
      && (out.Ok? ==>
            res == Ok(()) &&
            kv.entries == Save(old(kv.entries), keys, out.value.prizes, out.value.winners, out.value.excluded))
  {
    var winners := RecordsAt(kv.entries, keys.winners);
    var prizes := PrizesAt(kv.entries, keys.prizes);
    var excludedIdsRaw := IdsAt(kv.entries, keys.excludedIds);
    ghost var s := Load(kv.entries, keys);

    var winnerIndex := FindRecord(winners, id);
    if winnerIndex == -1 {
      return Err(RecordNotFound);
    }
    var winnerRecord := winners[winnerIndex];
    var excludedIds := IdSets.FromArray(excludedIdsRaw);
    assert s.winners == winners && s.prizes == prizes && s.excluded == excludedIds;

    winners := winners[..winnerIndex] + winners[winnerIndex + 1..];
    excludedIds := IdSets.Delete(excludedIds, winnerRecord.winnerId);
    var prizeIndex := Draw.FindPrize(prizes, winnerRecord.prizeId);
    if prizeIndex != -1 {
      prizes := prizes[prizeIndex := prizes[prizeIndex].(remaining := prizes[prizeIndex].remaining + 1)];
    }
    InvalidateOnAt(s, id, winnerIndex);
    assert WithdrawAt(s, winnerIndex).winners == winners;
    assert WithdrawAt(s, winnerIndex).prizes == prizes;
    assert WithdrawAt(s, winnerIndex).excluded == excludedIds;

    kv.SaveAll(keys, prizes, winners, excludedIds);
    res := Ok(());
  }

  /** As written, a record the draw handler stored cannot be withdrawn: the draw
      saves under the tenant's keys, which are none of the un-prefixed keys, so
      on a store whose un-prefixed winners list is empty every withdrawal of a
      just-drawn record answers 'Winner record not found'. */
  lemma DrawnRecordNotFound(e: Entries, tenant: string, req: Draw.DrawRequest,
                            random: (nat, nat) -> nat, recordIds: nat -> string, time: string,
                            rec: WinRecord)
    requires Draw.ValidRandom(random)
    requires RecordsAt(e, Kv.GlobalKeys.winners) == []
    requires Draw.DrawOn(Load(e, Kv.TokenKeys(tenant)), req, random, recordIds, time).Ok?
    requires rec in Draw.DrawOn(Load(e, Kv.TokenKeys(tenant)), req, random, recordIds, time).value.records
    ensures
      var d := Draw.DrawOn(Load(e, Kv.TokenKeys(tenant)), req, random, recordIds, time).value;
      var e' := Save(e, Kv.TokenKeys(tenant), d.prizes, d.winners, d.excluded);
      InvalidateOn(Load(e', Kv.GlobalKeys), rec.id) == Err(RecordNotFound)
  {
    var d := Draw.DrawOn(Load(e, Kv.TokenKeys(tenant)), req, random, recordIds, time).value;
    TenantSaveNotFound(e, tenant, d.prizes, d.winners, d.excluded, rec.id);
  }

  /** Whatever a handler saves under a tenant's keys, the un-prefixed winners
      list reads as before, so an id missing there stays missing. */
  lemma TenantSaveNotFound(e: Entries, tenant: string, prizes: seq<Prize>, winners: seq<WinRecord>,
                           excluded: seq<string>, id: string)
    requires RecordsAt(e, Kv.GlobalKeys.winners) == []
    ensures InvalidateOn(Load(Save(e, Kv.TokenKeys(tenant), prizes, winners, excluded), Kv.GlobalKeys), id)
            == Err(RecordNotFound)
  {
    Kv.GlobalKeysAreNotTenantKeys(Kv.SeatData, tenant);
    Kv.GlobalKeysAreNotTenantKeys(Kv.Prizes, tenant);
    Kv.GlobalKeysAreNotTenantKeys(Kv.Winners, tenant);
    Kv.GlobalKeysAreNotTenantKeys(Kv.ExcludedIds, tenant);
    LoadSaveElsewhere(e, Kv.TokenKeys(tenant), Kv.GlobalKeys, prizes, winners, excluded);
  }

  /** On the tenant's keys, withdrawing the record of a one-winner draw undoes
      the draw exactly: the prizes, the winners and the excluded ids are back to
      what they were, provided the new record's id was not already in use and
      prize ids are unique. */
  lemma TenantWithdrawalUndoesDraw(e: Entries, tenant: string, req: Draw.DrawRequest,
                                   random: (nat, nat) -> nat, recordIds: nat -> string, time: string)
    requires Draw.ValidRandom(random)
    requires Draw.DrawOn(Load(e, Kv.TokenKeys(tenant)), req, random, recordIds, time).Ok?
    requires |Draw.DrawOn(Load(e, Kv.TokenKeys(tenant)), req, random, recordIds, time).value.records| == 1
    requires forall w :: w in RecordsAt(e, Kv.TokenKeys(tenant).winners) ==> w.id != recordIds(0)
    requires Distinct(PrizeIds(PrizesAt(e, Kv.TokenKeys(tenant).prizes)))
    ensures
      var s := Load(e, Kv.TokenKeys(tenant));
      var d := Draw.DrawOn(s, req, random, recordIds, time).value;
      var e' := Save(e, Kv.TokenKeys(tenant), d.prizes, d.winners, d.excluded);
      InvalidateOn(Load(e', Kv.TokenKeys(tenant)), d.records[0].id) ==
        Ok(Invalidated(s.winners, s.prizes, s.excluded))
  {
    var keys := Kv.TokenKeys(tenant);
    var s := Load(e, keys);
    var d := Draw.DrawOn(s, req, random, recordIds, time).value;
    Draw.DrawOnSuccess(s, req, random, recordIds, time);
    Kv.TenantKeysDistinct(tenant);
    LoadSave(e, keys, d.prizes, d.winners, d.excluded);
    WithdrawalUndoesDraw(s, req, random, recordIds, time);
  }

  /** The first position holding the id is the one found. */
  lemma FindRecordAt(l: seq<WinRecord>, id: string, i: nat)
    requires i < |l| && l[i].id == id
    requires forall j :: 0 <= j < i ==> l[j].id != id
    ensures FindRecord(l, id) == i
  {
  }

  /** A record appended under a fresh id is found last, and removing it gives
      the old list back. */
  lemma UndoAppend(winners: seq<WinRecord>, rec: WinRecord)
    requires forall w :: w in winners ==> w.id != rec.id
    ensures FindRecord(winners + [rec], rec.id) == |winners|
    ensures (winners + [rec])[..|winners|] + (winners + [rec])[|winners| + 1..] == winners
  {
    var l := winners + [rec];
    forall j | 0 <= j < |winners| ensures l[j].id != rec.id {
      assert l[j] == winners[j] && winners[j] in winners;
    }
    FindRecordAt(l, rec.id, |winners|);
    SliceAroundLast(winners, rec);
  }

  lemma SliceAroundLast<T>(s: seq<T>, x: T)
    ensures (s + [x])[..|s|] + (s + [x])[|s| + 1..] == s
  {
    assert (s + [x])[..|s|] == s;
  }

  /** Excluding a fresh id and deleting it again gives the set back. */
  lemma UndoExclude(excluded: seq<string>, x: string)
    requires x !in excluded
    ensures IdSets.Delete(IdSets.AddAll(excluded, [x]), x) == excluded
  {
    assert [x][..0] == [];
    assert IdSets.AddAll(excluded, [x]) == IdSets.Add(excluded, x);
    IdSets.AddThenDelete(excluded, x);
  }

  /** Taking one unit of a prize with a unique id and giving it back by id gives
      the list back. */
  lemma UndoTake(prizes: seq<Prize>, ti: nat, taken: seq<Prize>)
    requires ti < |prizes| && Distinct(PrizeIds(prizes))
    requires taken == prizes[ti := prizes[ti].(remaining := prizes[ti].remaining - 1)]
    ensures Draw.FindPrize(taken, prizes[ti].id) == ti
    ensures taken[ti := taken[ti].(remaining := taken[ti].remaining + 1)] == prizes
  {
    var k := Draw.FindPrize(taken, prizes[ti].id);
    assert taken[ti].id == prizes[ti].id;
    assert k != -1 && k <= ti;
    assert k == ti by {
      if k < ti {
        DistinctAt(PrizeIds(prizes), k, ti);
      }
    }
  }

  /** The snapshot form of the above. */
  lemma WithdrawalUndoesDraw(s: Snapshot, req: Draw.DrawRequest, random: (nat, nat) -> nat,
                             recordIds: nat -> string, time: string)
    requires Draw.ValidRandom(random)
    requires Distinct(s.excluded) && Distinct(PrizeIds(s.prizes))
    requires Draw.DrawOn(s, req, random, recordIds, time).Ok?
    requires |Draw.DrawOn(s, req, random, recordIds, time).value.records| == 1
    requires forall w :: w in s.winners ==> w.id != recordIds(0)
    ensures
      var d := Draw.DrawOn(s, req, random, recordIds, time).value;
      InvalidateOn(Snapshot(s.roster, d.prizes, d.winners, d.excluded), d.records[0].id) ==
        Ok(Invalidated(s.winners, s.prizes, s.excluded))
  {
    var d := Draw.DrawOn(s, req, random, recordIds, time).value;
    var cands := Draw.Candidates(s.roster, s.excluded);
    var ti := Draw.ResolvePrize(s.prizes, req.prizeId, random).value;
    var target := s.prizes[ti];
    var ws := Draw.Picks(cands, Draw.Size(Draw.DrawCount(req.count, target.remaining, |cands|)), random, 1);
    assert d == Draw.Drawn(Draw.MakeRecords(target, ws, recordIds, time),
                           s.prizes[ti := target.(remaining := target.remaining - |ws|)],
                           s.winners + Draw.MakeRecords(target, ws, recordIds, time),
                           IdSets.AddAll(s.excluded, PersonIds(ws)));
    var rec := d.records[0];
    assert |ws| == 1 && rec == Draw.MakeRecord(target, ws[0], recordIds(0), time);
    assert d.records == [rec];
    Draw.PicksMembers(cands, |ws|, random, 1, ws[0]);
    assert PersonIds(ws) == [rec.winnerId];
    var after := Snapshot(s.roster, s.prizes[ti := target.(remaining := target.remaining - 1)],
                          s.winners + [rec], IdSets.AddAll(s.excluded, [rec.winnerId]));
    assert Snapshot(s.roster, d.prizes, d.winners, d.excluded) == after;
    UndoOne(s, ti, rec);
  }

  /** Withdrawing a record that was just appended for the prize at ti, with its
      winner just excluded and one unit just taken, restores all three values. */
  lemma UndoOne(s: Snapshot, ti: nat, rec: WinRecord)
    requires ti < |s.prizes| && Distinct(PrizeIds(s.prizes)) && Distinct(s.excluded)
    requires rec.prizeId == s.prizes[ti].id && rec.winnerId !in s.excluded
    requires forall w :: w in s.winners ==> w.id != rec.id
    ensures
      var taken := s.prizes[ti := s.prizes[ti].(remaining := s.prizes[ti].remaining - 1)];
      InvalidateOn(Snapshot(s.roster, taken, s.winners + [rec], IdSets.AddAll(s.excluded, [rec.winnerId])), rec.id)
        == Ok(Invalidated(s.winners, s.prizes, s.excluded))
  {
    var l := s.winners + [rec];
    var taken := s.prizes[ti := s.prizes[ti].(remaining := s.prizes[ti].remaining - 1)];
    var added := IdSets.AddAll(s.excluded, [rec.winnerId]);
    assert FindRecord(l, rec.id) == |s.winners| && l[..|s.winners|] + l[|s.winners| + 1..] == s.winners by {
      UndoAppend(s.winners, rec);
    }
    assert l[|s.winners|] == rec;
    UndoTake(s.prizes, ti, taken);
    assert IdSets.Delete(added, rec.winnerId) == s.excluded by {
      UndoExclude(s.excluded, rec.winnerId);
    }
    var snap := Snapshot(s.roster, taken, l, added);
    InvalidateOnAt(snap, rec.id, |s.winners|);
    WithdrawAtFound(snap, |s.winners|, ti);
  }

  /** A search that stops at position i withdraws the record there. */
  lemma InvalidateOnAt(s: Snapshot, id: string, i: nat)
    requires i < |s.winners| && FindRecord(s.winners, id) == i
    ensures InvalidateOn(s, id) == Ok(WithdrawAt(s, i))
  {
  }
}
