/**
 * The roster upload handler (functions/api/upload.js, `onRequestPost`): a
 * tenant's password, then a check of the parsed body's `data` array, then one
 * write of the roster under the tenant's `seat_data:` key.
 */
module Upload {
  import opened Types
  import Kv
  import Auth
  import opened Store

  /** One property of an uploaded item, as far as `typeof … === 'string'` sees it. */
  datatype Field = Str(s: string) | NonString

  /** One array element: `null`/`undefined`, on which reading `.id` throws, or
      anything else (a primitive reads as an object whose fields are not strings). */
  datatype Item = Nullish | Obj(id: Field, name: Field, seat: Field)

  /** `body.data`: falsy, a truthy non-array, or an array. */
  datatype Data = Falsy | NotArray | Items(items: seq<Item>)

  /** The `every` test of one item. */
  predicate WellFormed(item: Item) {
    item.Obj? && item.id.Str? && item.name.Str? && item.seat.Str?
  }

  function AsPerson(item: Item): Person
    requires WellFormed(item)
  {
    Person(item.id.s, item.name.s, item.seat.s)
  }

  /** `data.every(...)` followed by the store: `every` stops at the first item
      that fails, which answers 400, unless that item is nullish, where the
      property read throws and the handler answers 500. */
  function CheckItems(items: seq<Item>): (r: Result<seq<Person>>)
    ensures r.Ok? <==> forall i :: 0 <= i < |items| ==> WellFormed(items[i])
    ensures r.Ok? ==> |r.value| == |items|
    ensures r.Ok? ==> forall i :: 0 <= i < |items| ==> r.value[i] == AsPerson(items[i])
    ensures r.Err? ==> exists k ::
      && 0 <= k < |items| && !WellFormed(items[k])
      && (forall i :: 0 <= i < k ==> WellFormed(items[i]))
      && r.error == (if items[k].Nullish? then StorageFailure else InvalidInput)
  {
    if items == [] then Ok([])
    else if !WellFormed(items[0]) then
      Err(if items[0].Nullish? then StorageFailure else InvalidInput)
    else
      match CheckItems(items[1..])
      case Ok(rest) =>
        assert forall i :: 1 <= i < |items| ==> items[i] == items[1..][i - 1];
        Ok([AsPerson(items[0])] + rest)
      case Err(e) =>
        assert forall i :: 1 <= i < |items| ==> items[i] == items[1..][i - 1];
        var k :| && 0 <= k < |items[1..]| && !WellFormed(items[1..][k])
                 && (forall i :: 0 <= i < k ==> WellFormed(items[1..][i]))
                 && e == (if items[1..][k].Nullish? then StorageFailure else InvalidInput);
        assert items[k + 1] == items[1..][k];
        Err(e)
  }

  /** The validation of `data`: absent, non-array and empty data are refused
      before any item is looked at. */
  function Validate(data: Data): (r: Result<seq<Person>>)
    ensures (data.Falsy? || data.NotArray? || data == Items([])) ==> r == Err(InvalidInput)
    ensures data.Items? && data.items != [] ==> r == CheckItems(data.items)
  {
    if data.Falsy? || data.NotArray? || data.items == [] then Err(InvalidInput)
    else CheckItems(data.items)
  }

  /** The store after a valid upload: the roster replaced under the tenant's
      `seat_data:` key, nothing else written. */
  function UploadOn(e: Entries, tenant: string, roster: seq<Person>): (e': Entries)
    ensures PeopleAt(e', Kv.TokenKeys(tenant).seatData) == roster
    ensures forall k :: k != Kv.TokenKeys(tenant).seatData ==>
              (k in e' <==> k in e) && (k in e ==> e'[k] == e[k])
  {
    e[Kv.TokenKeys(tenant).seatData := PersonList(roster)]
  }

  /** An upload is seen by its own tenant only: every other tenant and the
      un-prefixed keys read what they read before. */
  lemma UploadIsTenantLocal(e: Entries, tenant: string, roster: seq<Person>, other: Kv.Keys)
    requires other == Kv.GlobalKeys || exists t :: t != tenant && other == Kv.TokenKeys(t)
    ensures Load(UploadOn(e, tenant, roster), other) == Load(e, other)
  {
    if other == Kv.GlobalKeys {
      Kv.GlobalKeysAreNotTenantKeys(Kv.SeatData, tenant);
      Kv.GlobalKeysAreNotTenantKeys(Kv.Prizes, tenant);
      Kv.GlobalKeysAreNotTenantKeys(Kv.Winners, tenant);
      Kv.GlobalKeysAreNotTenantKeys(Kv.ExcludedIds, tenant);
    } else {
      var t :| t != tenant && other == Kv.TokenKeys(t);
      Kv.TenantsDisjoint(tenant, t);
    }
  }

  /** `onRequestPost`: the password picks the tenant; a refused body or a
      missing binding writes nothing; on success the answer is the number of
      records saved. */
  method OnRequestPost(env: Auth.Env, token: string, kv: KvStore?, data: Data)
    returns (res: Result<nat>)
    modifies kv
    ensures Auth.FindTokenByPassword(env, token).None? ==>
      res == Err(Unauthorized) && (kv != null ==> kv.entries == old(kv.entries))
    ensures Auth.FindTokenByPassword(env, token).Some? ==>
      var out := Validate(data);
      && (out.Err? ==> res == Err(out.error) && (kv != null ==> kv.entries == old(kv.entries)))
      && (out.Ok? && kv == null ==> res == Err(StorageUnavailable))
      && (out.Ok? && kv != null ==>
            res == Ok(|out.value|) &&
            kv.entries == UploadOn(old(kv.entries), Auth.FindTokenByPassword(env, token).value.id, out.value))
  {
    var tokenConfig := Auth.FindTokenByPassword(env, token);
    if tokenConfig.None? {
      return Err(Unauthorized);
    }
    var checked := Validate(data);
    if checked.Err? {
      return Err(checked.error);
    }
    if kv == null {
      return Err(StorageUnavailable);
    }
    var keys := Kv.TokenKeys(tokenConfig.value.id);
    kv.Put(keys.seatData, PersonList(checked.value));
    res := Ok(|checked.value|);
  }
}
