/**
 * The per-tenant key namespace of the key/value store (functions/api/_kv.js),
 * and the un-prefixed keys that the single-tenant handlers still use.
 */
module Kv {
  import opened Types

  /** The four kinds of value a tenant keeps. */
  datatype Kind = SeatData | Prizes | Winners | ExcludedIds

  /** The keys one handler reads and writes. */
  datatype Keys = Keys(seatData: string, prizes: string, winners: string, excludedIds: string)

  function Prefix(k: Kind): string {
    match k
    case SeatData => "seat_data:"
    case Prizes => "prizes:"
    case Winners => "winners:"
    case ExcludedIds => "excludedIds:"
  }

  /** The key of kind k for tenant tokenId: the kind's prefix followed by the id. */
  function KeyFor(k: Kind, tokenId: string): (key: string)
    ensures |key| == |Prefix(k)| + |tokenId|
    ensures key[..|Prefix(k)|] == Prefix(k) && key[|Prefix(k)|..] == tokenId
  {
    Prefix(k) + tokenId
  }

  /** `getTokenKeys(tokenId)`. */
  function TokenKeys(tokenId: string): (keys: Keys)
    ensures keys.seatData == KeyFor(SeatData, tokenId) && keys.prizes == KeyFor(Prizes, tokenId)
    ensures keys.winners == KeyFor(Winners, tokenId) && keys.excludedIds == KeyFor(ExcludedIds, tokenId)
  {
    Keys(KeyFor(SeatData, tokenId), KeyFor(Prizes, tokenId),
         KeyFor(Winners, tokenId), KeyFor(ExcludedIds, tokenId))
  }

  /** The fixed keys of the handlers that were not made tenant-aware. */
  const GlobalKeys := Keys("seat_data", "prizes", "winners", "excludedIds")

  /** Splits a key into its kind and tenant, if it starts with one of the prefixes. */
  function ParseKey(key: string): (r: Option<(Kind, string)>)
    ensures r.Some? ==> KeyFor(r.value.0, r.value.1) == key
  {
    if HasPrefix(key, "seat_data:") then Some((SeatData, key[|"seat_data:"|..]))
    else if HasPrefix(key, "prizes:") then Some((Prizes, key[|"prizes:"|..]))
    else if HasPrefix(key, "winners:") then Some((Winners, key[|"winners:"|..]))
    else if HasPrefix(key, "excludedIds:") then Some((ExcludedIds, key[|"excludedIds:"|..]))
    else None
  }

  predicate HasPrefix(s: string, p: string) {
    |p| <= |s| && s[..|p|] == p
  }

  /** Stripping the prefix gives back the kind and the tenant id. */
  lemma ParseKeyFor(k: Kind, tokenId: string)
    ensures ParseKey(KeyFor(k, tokenId)) == Some((k, tokenId))
  {
    var key := KeyFor(k, tokenId);
    // The four prefixes start with four different letters.
    assert key[0] == Prefix(k)[0];
    match k {
      case SeatData =>
      case Prizes => assert !HasPrefix(key, "seat_data:") by { assert key[0] == 'p'; }
      case Winners =>
        assert !HasPrefix(key, "seat_data:") && !HasPrefix(key, "prizes:") by { assert key[0] == 'w'; }
      case ExcludedIds =>
        assert !HasPrefix(key, "seat_data:") && !HasPrefix(key, "prizes:") && !HasPrefix(key, "winners:")
          by { assert key[0] == 'e'; }
    }
  }

  /** Two keys coincide only for the same kind and the same tenant: distinct tenants
      never share a key, and keys of different kinds never collide. */
  lemma KeyForInjective(k1: Kind, t1: string, k2: Kind, t2: string)
    requires KeyFor(k1, t1) == KeyFor(k2, t2)
    ensures k1 == k2 && t1 == t2
  {
    ParseKeyFor(k1, t1);
    ParseKeyFor(k2, t2);
  }

  /** No tenant key is one of the un-prefixed keys: each of those is shorter than
      the prefix of its own kind and starts with another letter than the rest. */
  lemma GlobalKeysAreNotTenantKeys(k: Kind, tokenId: string)
    ensures KeyFor(k, tokenId) !in KeySet(GlobalKeys)
  {
    var key := KeyFor(k, tokenId);
    assert key[0] == Prefix(k)[0];
    assert |key| >= |Prefix(k)|;
    match k {
      case SeatData => assert |GlobalKeys.seatData| < |Prefix(k)|;
      case Prizes => assert |GlobalKeys.prizes| < |Prefix(k)|;
      case Winners => assert |GlobalKeys.winners| < |Prefix(k)|;
      case ExcludedIds => assert |GlobalKeys.excludedIds| < |Prefix(k)|;
    }
  }

  /** The four keys of two different tenants are pairwise distinct. */
  lemma TenantsDisjoint(t1: string, t2: string)
    requires t1 != t2
    ensures KeySet(TokenKeys(t1)) !! KeySet(TokenKeys(t2))
  {
    KeysNameTheirTenant(t1);
    KeysNameTheirTenant(t2);
  }

  /** Every key of tenant t parses back to t. */
  lemma KeysNameTheirTenant(t: string)
    ensures forall x :: x in KeySet(TokenKeys(t)) ==> ParseKey(x).Some? && ParseKey(x).value.1 == t
  {
    ParseKeyFor(SeatData, t); ParseKeyFor(Prizes, t);
    ParseKeyFor(Winners, t); ParseKeyFor(ExcludedIds, t);
  }

  /** The four keys of one tenant are pairwise distinct. */
  lemma TenantKeysDistinct(t: string)
    ensures |KeySet(TokenKeys(t))| == 4
  {
    var ks := TokenKeys(t);
    ParseKeyFor(SeatData, t);
    ParseKeyFor(Prizes, t);
    ParseKeyFor(Winners, t);
    ParseKeyFor(ExcludedIds, t);
    assert ks.seatData != ks.prizes && ks.seatData != ks.winners && ks.seatData != ks.excludedIds;
    assert ks.prizes != ks.winners && ks.prizes != ks.excludedIds && ks.winners != ks.excludedIds;
  }

  function KeySet(ks: Keys): set<string> {
    {ks.seatData, ks.prizes, ks.winners, ks.excludedIds}
  }
}
