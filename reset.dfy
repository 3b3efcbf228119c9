/**
 * The bulk resets: reset-winners (functions/api/lottery/reset-winners.js)
 * and reset (functions/api/lottery/reset.js), which do the same thing, and
 * clear-prizes (functions/api/prizes/reset.js). All three are admin-only and
 * work on the un-prefixed keys.
 */
module Reset {
  import opened Types
  import Kv
  import Auth
  import IdSets
  import opened Store
  import Invariants

  /** The prize list with every prize back at full stock. */
  function Restocked(prizes: seq<Prize>): (r: seq<Prize>)
    ensures |r| == |prizes|
    // every prize is at full stock ...
    ensures forall k :: 0 <= k < |r| ==> r[k].remaining == r[k].count
    // ... and nothing but the stock moved
    ensures forall k :: 0 <= k < |r| ==> r[k].(remaining := prizes[k].remaining) == prizes[k]
  {
    seq(|prizes|, k requires 0 <= k < |prizes| => prizes[k].(remaining := prizes[k].count))
  }

  /** `prizes.forEach(p => p.remaining = p.count)`, one prize at a time. */
  method RestoreStock(prizes: seq<Prize>) returns (r: seq<Prize>)
    ensures r == Restocked(prizes)
  {
    r := prizes;
    for k := 0 to |r|
      invariant |r| == |prizes|
      invariant r[..k] == Restocked(prizes)[..k]
      invariant r[k..] == prizes[k..]
    {
      r := r[k := r[k].(remaining := r[k].count)];
    }
  }

  /** Restocking twice is restocking once. */
  lemma RestockedIdempotent(prizes: seq<Prize>)
    ensures Restocked(Restocked(prizes)) == Restocked(prizes)
  {
    var once := Restocked(prizes);
    forall k | 0 <= k < |prizes| ensures Restocked(once)[k] == once[k] {
      assert once[k].remaining == once[k].count;
    }
  }

  /** Restocking keeps every prize id where it was. */
  lemma RestockedKeepsIds(prizes: seq<Prize>)
    ensures PrizeIds(Restocked(prizes)) == PrizeIds(prizes)
  {
    forall k | 0 <= k < |prizes| ensures PrizeIds(Restocked(prizes))[k] == PrizeIds(prizes)[k] {
      assert Restocked(prizes)[k].(remaining := prizes[k].remaining) == prizes[k];
    }
  }

  /** The store after a reset: prizes restocked, winners and excluded ids
      emptied, every other key untouched. */
  function ResetOn(e: Entries): (e': Entries)
    ensures Load(e', Kv.GlobalKeys).prizes == Restocked(PrizesAt(e, Kv.GlobalKeys.prizes))
    ensures Load(e', Kv.GlobalKeys).winners == [] && Load(e', Kv.GlobalKeys).excluded == []
    ensures forall k :: k !in Kv.KeySet(Kv.GlobalKeys) - {Kv.GlobalKeys.seatData} ==>
              (k in e' <==> k in e) && (k in e ==> e'[k] == e[k])
  {
    var e' := Save(e, Kv.GlobalKeys, Restocked(PrizesAt(e, Kv.GlobalKeys.prizes)), [], []);
    assert IdSets.FromArray([]) == [];
    e'
  }

  /** A reset touches only the un-prefixed keys: every tenant's roster, prizes,
      winners and excluded ids read as before. */
  lemma ResetLeavesTenants(e: Entries, tenant: string)
    ensures Load(ResetOn(e), Kv.TokenKeys(tenant)) == Load(e, Kv.TokenKeys(tenant))
  {
    Kv.GlobalKeysAreNotTenantKeys(Kv.SeatData, tenant);
    Kv.GlobalKeysAreNotTenantKeys(Kv.Prizes, tenant);
    Kv.GlobalKeysAreNotTenantKeys(Kv.Winners, tenant);
    Kv.GlobalKeysAreNotTenantKeys(Kv.ExcludedIds, tenant);
    LoadSaveElsewhere(e, Kv.GlobalKeys, Kv.TokenKeys(tenant), Restocked(PrizesAt(e, Kv.GlobalKeys.prizes)), [], []);
  }

  /** Two resets leave the store as one does. */
  lemma ResetIdempotent(e: Entries)
    ensures ResetOn(ResetOn(e)) == ResetOn(e)
  {
    RestockedIdempotent(PrizesAt(e, Kv.GlobalKeys.prizes));
  }

  /** After a reset the books are consistent, whatever they were before,
      provided the prize ids are unique. */
  lemma ResetIsConsistent(e: Entries)
    requires Distinct(PrizeIds(PrizesAt(e, Kv.GlobalKeys.prizes)))
    ensures
      var s := Load(ResetOn(e), Kv.GlobalKeys);
      Invariants.Consistent(s.prizes, s.winners, s.excluded)
  {
    var prizes := Restocked(PrizesAt(e, Kv.GlobalKeys.prizes));
    RestockedKeepsIds(PrizesAt(e, Kv.GlobalKeys.prizes));
    forall p | p in prizes ensures p.remaining == p.count {
    }
    Invariants.FreshIsConsistent(prizes);
  }

  /** The three overwrites of both reset handlers. */
  method ResetAll(kv: KvStore)
    modifies kv
    ensures kv.entries == ResetOn(old(kv.entries))
  {
    var prizes := PrizesAt(kv.entries, Kv.GlobalKeys.prizes);
    prizes := RestoreStock(prizes);
    kv.SaveAll(Kv.GlobalKeys, prizes, [], []);
  }

  /** reset-winners `onRequestPost`: a wrong token or a missing binding writes nothing. */
  method OnResetWinners(env: Auth.Env, token: string, kv: KvStore?) returns (res: Result<()>)
    modifies kv
    ensures !Auth.AdminAuthorized(env, token) ==>
      res == Err(Unauthorized) && (kv != null ==> kv.entries == old(kv.entries))
    ensures Auth.AdminAuthorized(env, token) && kv == null ==> res == Err(StorageUnavailable)
    ensures Auth.AdminAuthorized(env, token) && kv != null ==>
      res == Ok(()) && kv.entries == ResetOn(old(kv.entries))
  {
    if !Auth.AdminAuthorized(env, token) {
      return Err(Unauthorized);
    }
    if kv == null {
      return Err(StorageUnavailable);
    }
    ResetAll(kv);
    res := Ok(());
  }

  /** reset `onRequestPost`: the same checks and the same three writes as
      reset-winners, so both end in the same store. */
  method OnReset(env: Auth.Env, token: string, kv: KvStore?) returns (res: Result<()>)
    modifies kv
    ensures !Auth.AdminAuthorized(env, token) ==>
      res == Err(Unauthorized) && (kv != null ==> kv.entries == old(kv.entries))
    ensures Auth.AdminAuthorized(env, token) && kv == null ==> res == Err(StorageUnavailable)
    ensures Auth.AdminAuthorized(env, token) && kv != null ==>
      res == Ok(()) && kv.entries == ResetOn(old(kv.entries))
  {
    if !Auth.AdminAuthorized(env, token) {
      return Err(Unauthorized);
    }
    if kv == null {
      return Err(StorageUnavailable);
    }
    ResetAll(kv);
    res := Ok(());
  }

  /** The store after clear-prizes: the prize list reads empty and every
      other key, winners and excluded ids included, is untouched. */
  function ClearPrizesOn(e: Entries): (e': Entries)
    ensures PrizesAt(e', Kv.GlobalKeys.prizes) == []
    ensures forall k :: k != Kv.GlobalKeys.prizes ==> (k in e' <==> k in e) && (k in e ==> e'[k] == e[k])
  {
    e[Kv.GlobalKeys.prizes := PrizeList([])]
  }

  /** Clearing twice is clearing once. */
  lemma ClearPrizesIdempotent(e: Entries)
    ensures ClearPrizesOn(ClearPrizesOn(e)) == ClearPrizesOn(e)
  {
  }

  /** Clearing the prizes of a lottery with a record strands the record: it
      names a prize that is no longer listed. */
  lemma ClearPrizesStrandsRecords(e: Entries)
    requires RecordsAt(e, Kv.GlobalKeys.winners) != []
    ensures
      var s := Load(ClearPrizesOn(e), Kv.GlobalKeys);
      !Invariants.Consistent(s.prizes, s.winners, s.excluded)
  {
    var s := Load(ClearPrizesOn(e), Kv.GlobalKeys);
    assert s.winners[0].prizeId !in PrizeIds(s.prizes);
  }

  /** prizes/reset `onRequestPost`: one overwrite of the prize list. */
  method OnClearPrizes(env: Auth.Env, token: string, kv: KvStore?) returns (res: Result<()>)
    modifies kv
    ensures !Auth.AdminAuthorized(env, token) ==>
      res == Err(Unauthorized) && (kv != null ==> kv.entries == old(kv.entries))
    ensures Auth.AdminAuthorized(env, token) && kv == null ==> res == Err(StorageUnavailable)
    ensures Auth.AdminAuthorized(env, token) && kv != null ==>
      res == Ok(()) && kv.entries == ClearPrizesOn(old(kv.entries))
  {
    if !Auth.AdminAuthorized(env, token) {
      return Err(Unauthorized);
    }
    if kv == null {
      return Err(StorageUnavailable);
    }
    kv.Put(Kv.GlobalKeys.prizes, PrizeList([]));
    res := Ok(());
  }
}
