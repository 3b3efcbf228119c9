/**
 * The prize upsert handler (functions/api/prizes.js, `onRequestPost`): an
 * admin request inserts a prize, or updates the prize with the same id in
 * place, moving its stock by the change in count and never below 0.
 *
 * Like the invalidate handler it reads and writes the un-prefixed `prizes`
 * key. `Date.now().toString()`, the id of a prize sent without one, is the
 * parameter `now`.
 */
module Prizes {
  import opened Types
  import Kv
  import Auth
  import opened Store
  import Invariants
  import Draw

  /** The request body after destructuring. Strings are "" when the field is
      absent or falsy; `count` is None when the field is falsy (absent, 0, "")
      and otherwise `Some(parseInt(count))`. */
  datatype PrizeRequest = PrizeRequest(id: string, name: string, count: Option<int>,
                                       level: string, levelLabel: string)

  const DefaultLevel := "participation"
  const DefaultLevelLabel := "参与奖"

  /** What the handler answers with and what it stores. */
  datatype Upserted = Upserted(prizes: seq<Prize>, prize: Prize)

  /** `newPrize` before the delta rule: defaults filled in, `remaining := count`. */
  function NewPrize(req: PrizeRequest, now: string): Prize
    requires req.count.Some?
  {
    Prize(if req.id != "" then req.id else now, req.name, req.count.value, req.count.value,
          if req.level != "" then req.level else DefaultLevel,
          if req.levelLabel != "" then req.levelLabel else DefaultLevelLabel)
  }

  /** The stock of an updated prize: the old stock moved by the change in
      count, clamped at 0. */
  function UpdatedRemaining(before: Prize, count: int): (r: int)
    ensures r >= 0
    ensures before.remaining + (count - before.count) >= 0 ==> count - r == before.count - before.remaining
    ensures before.remaining + (count - before.count) < 0 ==> r == 0
  {
    var remaining := before.remaining + (count - before.count);
    if remaining < 0 then 0 else remaining
  }

  /** Whether an upsert updates an existing prize whose stock the clamp lifts. */
  predicate Clamps(prizes: seq<Prize>, req: PrizeRequest, now: string)
    requires req.count.Some?
  {
    var k := Draw.FindPrize(prizes, NewPrize(req, now).id);
    k >= 0 && prizes[k].remaining + (req.count.value - prizes[k].count) < 0
  }

  /** The upsert on the loaded prize list. */
  function UpsertOn(prizes: seq<Prize>, req: PrizeRequest, now: string): (r: Result<Upserted>)
    ensures r.Err? <==> req.name == "" || req.count.None?
    ensures r.Err? ==> r.error == InvalidInput
    ensures r.Ok? ==> r.value.prize in r.value.prizes
  {
    if req.name == "" || req.count.None? then Err(InvalidInput)
    else
      var p := NewPrize(req, now);
      var k := Draw.FindPrize(prizes, p.id);
      if k >= 0 then
        var p' := p.(remaining := UpdatedRemaining(prizes[k], p.count));
        assert prizes[k := p'][k] == p';
        Ok(Upserted(prizes[k := p'], p'))
      else
        Ok(Upserted(prizes + [p], p))
  }

  /** The effect of an accepted upsert: the prize carries the request's fields
      with their defaults; an unknown id is appended at full stock after the
      untouched list; a known id is replaced at its first position, with the
      delta rule, and every other prize stays where it was. */
  lemma UpsertEffect(prizes: seq<Prize>, req: PrizeRequest, now: string)
    requires UpsertOn(prizes, req, now).Ok?
    ensures
      var r := UpsertOn(prizes, req, now).value;
      var p := r.prize;
      var k := Draw.FindPrize(prizes, p.id);
      && p.id == (if req.id != "" then req.id else now)
      && p.name == req.name && p.count == req.count.value
      && p.level == (if req.level != "" then req.level else DefaultLevel)
      && p.levelLabel == (if req.levelLabel != "" then req.levelLabel else DefaultLevelLabel)
      && (k == -1 ==> r.prizes == prizes + [p] && p.remaining == p.count)
      && (k != -1 ==>
            && |r.prizes| == |prizes|
            && r.prizes[k] == p
            && p.remaining == UpdatedRemaining(prizes[k], p.count)
            && (forall j :: 0 <= j < |prizes| && j != k ==> r.prizes[j] == prizes[j]))
  {
  }

  /** An upsert keeps prize ids unique: an update keeps the id at its
      position, an insert adds an id that was not listed. */
  lemma UpsertKeepsIdsDistinct(prizes: seq<Prize>, req: PrizeRequest, now: string)
    requires Distinct(PrizeIds(prizes))
    requires UpsertOn(prizes, req, now).Ok?
    ensures Distinct(PrizeIds(UpsertOn(prizes, req, now).value.prizes))
  {
    var r := UpsertOn(prizes, req, now).value;
    var k := Draw.FindPrize(prizes, r.prize.id);
    if k != -1 {
      assert PrizeIds(r.prizes) == PrizeIds(prizes);
    } else {
      assert PrizeIds(r.prizes) == PrizeIds(prizes) + [r.prize.id];
      assert r.prize.id !in PrizeIds(prizes) by {
        forall j | 0 <= j < |prizes| ensures PrizeIds(prizes)[j] != r.prize.id {
          assert prizes[j] in prizes;
        }
      }
    }
  }

  /** Unless the clamp fires, an upsert keeps the books consistent: an update
      keeps `count - remaining` of the prize, and an inserted prize has no
      records since every record names a listed prize. */
  lemma UpsertPreservesConsistency(prizes: seq<Prize>, ws: seq<WinRecord>, excluded: seq<string>,
                                   req: PrizeRequest, now: string)
    requires Invariants.Consistent(prizes, ws, excluded)
    requires UpsertOn(prizes, req, now).Ok?
    requires !Clamps(prizes, req, now)
    ensures Invariants.Consistent(UpsertOn(prizes, req, now).value.prizes, ws, excluded)
  {
    var r := UpsertOn(prizes, req, now).value;
    var k := Draw.FindPrize(prizes, r.prize.id);
    UpsertKeepsIdsDistinct(prizes, req, now);
    if k != -1 {
      assert PrizeIds(r.prizes) == PrizeIds(prizes);
      assert r.prizes[k].count - r.prizes[k].remaining == prizes[k].count - prizes[k].remaining;
    } else {
      assert PrizeIds(r.prizes) == PrizeIds(prizes) + [r.prize.id];
      forall w | w in ws ensures w.prizeId != r.prize.id {
        var i :| 0 <= i < |ws| && ws[i] == w;
        var j :| 0 <= j < |prizes| && PrizeIds(prizes)[j] == w.prizeId;
        assert prizes[j] in prizes;
      }
      Invariants.CountForAbsent(ws, r.prize.id);
      assert r.prizes[|prizes|] == r.prize;
    }
  }

  /** The clamp forgets records: lowering the count of a prize with two
      records and no stock to 1 leaves `count - remaining` at 1. */
  lemma ClampForgetsRecords()
    ensures
      var mug := Prize("p1", "Mug", 2, 0, "participation", "参与奖");
      var rec1 := WinRecord("r1", "p1", "Mug", "participation", "参与奖", "u1", "Ann", "A1", "t");
      var rec2 := WinRecord("r2", "p1", "Mug", "participation", "参与奖", "u2", "Bob", "A2", "t");
      var req := PrizeRequest("p1", "Mug", Some(1), "", "");
      var r := UpsertOn([mug], req, "0");
      && Invariants.Consistent([mug], [rec1, rec2], ["u1", "u2"])
      && Clamps([mug], req, "0")
      && r.Ok? && r.value.prizes == [mug.(count := 1)]
      && !Invariants.Consistent(r.value.prizes, [rec1, rec2], ["u1", "u2"])
  {
    var mug := Prize("p1", "Mug", 2, 0, "participation", "参与奖");
    var rec1 := WinRecord("r1", "p1", "Mug", "participation", "参与奖", "u1", "Ann", "A1", "t");
    var rec2 := WinRecord("r2", "p1", "Mug", "participation", "参与奖", "u2", "Bob", "A2", "t");
    assert Draw.FindPrize([mug], "p1") == 0;
    assert CountFor([rec1, rec2], "p1") == 2 by {
      assert [rec1, rec2][..1] == [rec1];
      assert [rec1] == [] + [rec1];
    }
    assert WinnerIds([rec1, rec2]) == ["u1", "u2"];
    assert PrizeIds([mug]) == ["p1"];
  }

  /** `onRequestPost`: admin password first, then the body check; with no
      store binding the upsert runs on [] and nothing is written. */
  method OnRequestPost(env: Auth.Env, token: string, kv: KvStore?, req: PrizeRequest, now: string)
    returns (res: Result<Prize>)
    modifies kv
    ensures !Auth.AdminAuthorized(env, token) ==>
      res == Err(Unauthorized) && (kv != null ==> kv.entries == old(kv.entries))
    ensures Auth.AdminAuthorized(env, token) ==>
      var prizes := if kv == null then [] else PrizesAt(old(kv.entries), Kv.GlobalKeys.prizes);
      var out := UpsertOn(prizes, req, now);
      && (out.Err? ==> res == Err(out.error) && (kv != null ==> kv.entries == old(kv.entries)))
      && (out.Ok? ==>
            res == Ok(out.value.prize) &&
            (kv != null ==>
               kv.entries == old(kv.entries)[Kv.GlobalKeys.prizes := PrizeList(out.value.prizes)]))
  {
    if !Auth.AdminAuthorized(env, token) {
      return Err(Unauthorized);
    }
    if req.name == "" || req.count.None? {
      return Err(InvalidInput);
    }
    var prizes: seq<Prize> := [];
    if kv != null {
      prizes := PrizesAt(kv.entries, Kv.GlobalKeys.prizes);
    }
    var newPrize := NewPrize(req, now);
    var existIndex := Draw.FindPrize(prizes, newPrize.id);
    if existIndex >= 0 {
      var diff := newPrize.count - prizes[existIndex].count;
      newPrize := newPrize.(remaining := prizes[existIndex].remaining + diff);
      if newPrize.remaining < 0 {
        newPrize := newPrize.(remaining := 0);
      }
      prizes := prizes[existIndex := newPrize];
    } else {
      prizes := prizes + [newPrize];
    }
    if kv != null {
      kv.Put(Kv.GlobalKeys.prizes, PrizeList(prizes));
    }
    res := Ok(newPrize);
  }
}
