/**
 * The key/value store the handlers share (the `SEAT_DATA` binding). Each value
 * is one of the four JSON arrays the handlers keep. A handler's
 * `get(key, 'json').then(r => r || [])` is modelled by the readers below: an
 * absent key, or a key holding an array of another kind, reads as [].
 */
module Store {
  import opened Types
  import Kv
  import IdSets

  datatype Value =
    | PersonList(people: seq<Person>)
    | PrizeList(prizes: seq<Prize>)
    | RecordList(records: seq<WinRecord>)
    | IdList(ids: seq<string>)

  type Entries = map<string, Value>

  function PeopleAt(e: Entries, key: string): seq<Person> {
    if key in e && e[key].PersonList? then e[key].people else []
  }

  function PrizesAt(e: Entries, key: string): seq<Prize> {
    if key in e && e[key].PrizeList? then e[key].prizes else []
  }

  function RecordsAt(e: Entries, key: string): seq<WinRecord> {
    if key in e && e[key].RecordList? then e[key].records else []
  }

  function IdsAt(e: Entries, key: string): seq<string> {
    if key in e && e[key].IdList? then e[key].ids else []
  }

  /** What one handler sees of the store under its keys; `excluded` is already
      the `new Set(raw)` of the stored array. */
  datatype Snapshot = Snapshot(roster: seq<Person>, prizes: seq<Prize>,
                               winners: seq<WinRecord>, excluded: seq<string>)

  function Load(e: Entries, keys: Kv.Keys): Snapshot {
    Snapshot(PeopleAt(e, keys.seatData), PrizesAt(e, keys.prizes),
             RecordsAt(e, keys.winners), IdSets.FromArray(IdsAt(e, keys.excludedIds)))
  }

  /** The three puts of a handler that rewrites prizes, winners and excluded ids. */
  function Save(e: Entries, keys: Kv.Keys, prizes: seq<Prize>, winners: seq<WinRecord>,
                excluded: seq<string>): (e': Entries)
    ensures e'.Keys == e.Keys + {keys.prizes, keys.winners, keys.excludedIds}
    ensures forall k :: k in e && k !in {keys.prizes, keys.winners, keys.excludedIds} ==> e'[k] == e[k]
  {
    e[keys.prizes := PrizeList(prizes)][keys.winners := RecordList(winners)]
     [keys.excludedIds := IdList(excluded)]
  }

  /** A handler that saves under keys reads back what it saved, provided the
      keys are distinct and the saved ids have no duplicates. */
  lemma LoadSave(e: Entries, keys: Kv.Keys, prizes: seq<Prize>, winners: seq<WinRecord>,
                 excluded: seq<string>)
    requires |Kv.KeySet(keys)| == 4
    requires Distinct(excluded)
    ensures Load(Save(e, keys, prizes, winners, excluded), keys) ==
            Snapshot(PeopleAt(e, keys.seatData), prizes, winners, excluded)
  {
    IdSets.FromArrayOfDistinct(excluded);
  }

  /** A save under one key set leaves what another, disjoint, key set reads unchanged. */
  lemma LoadSaveElsewhere(e: Entries, keys: Kv.Keys, other: Kv.Keys, prizes: seq<Prize>,
                          winners: seq<WinRecord>, excluded: seq<string>)
    requires Kv.KeySet(keys) !! Kv.KeySet(other)
    ensures Load(Save(e, keys, prizes, winners, excluded), other) == Load(e, other)
  {
  }

  /** The store binding itself; a handler given `null` models a missing binding. */
  class KvStore {
    var entries: Entries

    constructor ()
      ensures entries == map[]
    {
      entries := map[];
    }

    /** `put(key, JSON.stringify(v))`. */
    method Put(key: string, v: Value)
      modifies this
      ensures entries == old(entries)[key := v]
    {
      entries := entries[key := v];
    }

    /** The `Promise.all` of the three puts of prizes, winners and excluded ids;
        the puts are concurrent, so the step is taken as one. */
    method SaveAll(keys: Kv.Keys, prizes: seq<Prize>, winners: seq<WinRecord>, excluded: seq<string>)
      modifies this
      ensures entries == Save(old(entries), keys, prizes, winners, excluded)
    {
      Put(keys.prizes, PrizeList(prizes));
      Put(keys.winners, RecordList(winners));
      Put(keys.excludedIds, IdList(excluded));
    }
  }
}
