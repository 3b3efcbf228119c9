/**
 * Access tokens (functions/api/_auth.js): normalisation of configured tokens,
 * the precedence of the configuration sources, and the two lookups that
 * resolve a request's tenant.
 *
 * JavaScript truthiness on a configured field is modelled on its string form:
 * "" stands for a field that is absent, null or otherwise falsy.
 */
module Auth {
  import opened Types

  /** A normalised token. */
  datatype Token = Token(id: string, password: string, labelText: string, shareCode: string)

  /** One element of a configured token array, before normalisation. */
  datatype RawToken =
    | Nullish
    | RawToken(id: string, password: string, labelText: string, shareCode: string, code: string)

  /** The argument of `normalizeTokens`: an array, or any other JSON value. */
  datatype RawList = NotAnArray | Items(items: seq<RawToken>)

  /** `TOKENS_JSON` after `JSON.parse`. */
  datatype TokensJson =
    | Unset                                     // absent or empty
    | Unparsable                                // JSON.parse throws
    | ArrayValue(items: seq<RawToken>)          // a top-level array
    | ObjectValue(tokens: RawList)              // an object; `tokens` is its `.tokens` field
    | OtherValue                                // null, a number, a string, ...

  /** The environment bindings the lookups read. */
  datatype Env = Env(tokensJson: TokensJson, adminPassword: string)

  const DefaultPassword := "MEILIN1!"
  const DefaultTokens := [Token("default", DefaultPassword, "默认", "")]

  /** The number a string of decimal digits spells, most significant digit first. */
  function DigitsValue(s: string): int {
    if s == [] then 0
    else DigitsValue(s[..|s| - 1]) * 10 + (s[|s| - 1] as int - '0' as int)
  }

  /** Decimal digits of n, as `${n}` writes them: no leading zero, spelling n. */
  function Decimal(n: nat): (s: string)
    ensures |s| > 0
    ensures forall i :: 0 <= i < |s| ==> '0' <= s[i] <= '9'
    ensures DigitsValue(s) == n
    ensures s[0] != '0' || n == 0
    decreases n
  {
    var d := ['0' + (n % 10) as char];
    assert DigitsValue(d) == n % 10 by {
      assert d[..0] == [];
    }
    if n < 10 then d
    else
      var h := Decimal(n / 10);
      assert (h + d)[..|h + d| - 1] == h;
      assert (h + d)[0] == h[0];
      h + d
  }

  /** The default id of the token at position index: `token_${index + 1}`. */
  function DefaultId(index: nat): (id: string)
    ensures |id| > 6 && id[..6] == "token_"
  {
    "token_" + Decimal(index + 1)
  }

  /** The digits after `token_` spell index + 1. */
  lemma DefaultIdSpells(index: nat)
    ensures DefaultId(index)[6..] == Decimal(index + 1)
    ensures DigitsValue(DefaultId(index)[6..]) == index + 1
  {
    assert DefaultId(index)[6..] == Decimal(index + 1);
  }

  /** Different positions get different default ids. */
  lemma DefaultIdInjective(i: nat, j: nat)
    ensures DefaultId(i) == DefaultId(j) ==> i == j
  {
    DefaultIdSpells(i);
    DefaultIdSpells(j);
  }

  /** The `map` callback of `normalizeTokens`. */
  function NormalizeOne(t: RawToken, index: nat): (r: Token)
    ensures t.Nullish? ==> r == Token(DefaultId(index), "", DefaultId(index), "")
    ensures t.RawToken? ==>
      && r.id == (if t.id != "" then t.id else DefaultId(index))
      && r.password == t.password
      && r.labelText == (if t.labelText != "" then t.labelText else r.id)
      && r.shareCode == (if t.shareCode != "" then t.shareCode else t.code)
  {
    match t
    case Nullish => Token(DefaultId(index), "", DefaultId(index), "")
    case RawToken(id, password, labelText, shareCode, code) =>
      var id' := if id != "" then id else DefaultId(index);
      Token(id', password, if labelText != "" then labelText else id',
            if shareCode != "" then shareCode else code)
  }

  /** The `map` step, over items that stood at positions start, start + 1, ... */
  function MapTokens(items: seq<RawToken>, start: nat): seq<Token> {
    seq(|items|, k requires 0 <= k < |items| => NormalizeOne(items[k], start + k))
  }

  /** The `filter` step: the tokens with a non-empty password, in order. */
  function KeepWithPassword(ts: seq<Token>): (r: seq<Token>)
    ensures |r| <= |ts|
    ensures forall t :: t in r ==> t in ts && t.password != ""
  {
    if ts == [] then []
    else (if ts[0].password != "" then [ts[0]] else []) + KeepWithPassword(ts[1..])
  }

  /** The filter drops exactly the tokens without a password. */
  lemma {:induction false} KeepWithPasswordMembers(ts: seq<Token>, t: Token)
    ensures t in KeepWithPassword(ts) <==> t in ts && t.password != ""
  {
    if ts != [] && ts[0] != t {
      KeepWithPasswordMembers(ts[1..], t);
      assert t in ts <==> t in ts[1..];
    }
  }

  /** The filter keeps order: it filters the parts of a split list in turn. */
  lemma {:induction false} KeepWithPasswordAppend(a: seq<Token>, b: seq<Token>)
    ensures KeepWithPassword(a + b) == KeepWithPassword(a) + KeepWithPassword(b)
  {
    if a != [] {
      assert (a + b)[0] == a[0];
      assert (a + b)[1..] == a[1..] + b;
      KeepWithPasswordAppend(a[1..], b);
    } else {
      assert a + b == b;
    }
  }

  /** Map then filter. */
  function NormalizeFrom(items: seq<RawToken>, start: nat): (r: seq<Token>)
    ensures |r| <= |items|
    ensures forall t :: t in r ==> t.password != ""
  {
    KeepWithPassword(MapTokens(items, start))
  }

  /** Item k, mapped with its position start + k, gives t. */
  predicate MappedAt(items: seq<RawToken>, start: nat, t: Token, k: int) {
    0 <= k < |items| && t == NormalizeOne(items[k], start + k)
  }

  /** The mapped tokens are the items, each normalised with its position. */
  lemma MapTokensMembers(items: seq<RawToken>, start: nat, t: Token)
    ensures t in MapTokens(items, start) <==> exists k :: MappedAt(items, start, t, k)
  {
    var m := MapTokens(items, start);
    if t in m {
      var k :| 0 <= k < |m| && m[k] == t;
      assert m[k] == NormalizeOne(items[k], start + k);
      assert MappedAt(items, start, t, k);
    }
    if exists k :: MappedAt(items, start, t, k) {
      var k :| MappedAt(items, start, t, k);
      assert m[k] == NormalizeOne(items[k], start + k);
      assert m[k] == t;
    }
  }

  /** The normalised tokens are exactly the mapped items with a non-empty password,
      each mapped with its position before filtering. */
  lemma NormalizeFromMembers(items: seq<RawToken>, start: nat, t: Token)
    ensures t in NormalizeFrom(items, start) <==>
      t.password != "" && exists k :: MappedAt(items, start, t, k)
  {
    KeepWithPasswordMembers(MapTokens(items, start), t);
    MapTokensMembers(items, start, t);
  }

  /** `normalizeTokens(tokens)`: [] for a non-array. */
  function NormalizeTokens(tokens: RawList): (r: seq<Token>)
    ensures tokens.NotAnArray? ==> r == []
    ensures tokens.Items? ==> r == NormalizeFrom(tokens.items, 0)
  {
    match tokens
    case NotAnArray => []
    case Items(items) => NormalizeFrom(items, 0)
  }

  /** Normalisation keeps input order: normalising a concatenation concatenates
      the normalised parts, each token keeping its original position. */
  lemma NormalizeFromAppend(a: seq<RawToken>, b: seq<RawToken>, start: nat)
    ensures NormalizeFrom(a + b, start) == NormalizeFrom(a, start) + NormalizeFrom(b, start + |a|)
  {
    var ma, mb, mab := MapTokens(a, start), MapTokens(b, start + |a|), MapTokens(a + b, start);
    forall k | 0 <= k < |a + b| ensures mab[k] == (ma + mb)[k] {
      if k < |a| {
        assert (a + b)[k] == a[k];
      } else {
        assert (a + b)[k] == b[k - |a|];
      }
    }
    assert mab == ma + mb;
    KeepWithPasswordAppend(ma, mb);
  }

  /** `getTokensFromEnv(env)`. */
  function TokensFromEnv(env: Env): (r: seq<Token>)
    ensures |r| > 0
    ensures forall t :: t in r ==> t.password != ""
    ensures env.tokensJson.ArrayValue? && NormalizeFrom(env.tokensJson.items, 0) != [] ==>
      r == NormalizeFrom(env.tokensJson.items, 0)
    ensures env.tokensJson.ObjectValue? && NormalizeTokens(env.tokensJson.tokens) != [] ==>
      r == NormalizeTokens(env.tokensJson.tokens)
    ensures ConfiguredTokens(env.tokensJson) == [] && env.adminPassword != "" ==>
      r == [Token("default", env.adminPassword, "默认", "")]
    ensures ConfiguredTokens(env.tokensJson) == [] && env.adminPassword == "" ==> r == DefaultTokens
  {
    var configured := ConfiguredTokens(env.tokensJson);
    if configured != [] then configured
    else if env.adminPassword != "" then [Token("default", env.adminPassword, "默认", "")]
    else DefaultTokens
  }

  /** The tokens TOKENS_JSON supplies, [] when it supplies none. An array's
      `.tokens` is undefined, so only an object reaches the second test. */
  function ConfiguredTokens(j: TokensJson): seq<Token> {
    match j
    case ArrayValue(items) => NormalizeFrom(items, 0)
    case ObjectValue(tokens) => NormalizeTokens(tokens)
    case _ => []
  }

  /** The first element of `tokens` whose password is `password`. */
  function FirstByPassword(tokens: seq<Token>, password: string): (r: Option<Token>)
    ensures r.Some? ==> r.value in tokens && r.value.password == password
    ensures r.None? <==> forall t :: t in tokens ==> t.password != password
    ensures r.Some? ==> exists i :: (0 <= i < |tokens| && tokens[i] == r.value &&
      forall j :: 0 <= j < i ==> tokens[j].password != password)
  {
    if tokens == [] then None
    else if tokens[0].password == password then Some(tokens[0])
    else
      var r := FirstByPassword(tokens[1..], password);
      assert forall t :: t in tokens ==> t == tokens[0] || t in tokens[1..];
      if r.Some? then
        assert exists i :: (0 <= i < |tokens| && tokens[i] == r.value &&
          forall j :: 0 <= j < i ==> tokens[j].password != password) by {
          var i :| 0 <= i < |tokens[1..]| && tokens[1..][i] == r.value &&
            forall j :: 0 <= j < i ==> tokens[1..][j].password != password;
          assert tokens[i + 1] == r.value;
          forall j | 0 <= j < i + 1 ensures tokens[j].password != password {
            if j > 0 { assert tokens[j] == tokens[1..][j - 1]; }
          }
        }
        r
      else r
  }

  /** `findTokenByPassword(env, password)`; "" stands for a missing header. */
  function FindTokenByPassword(env: Env, password: string): (r: Option<Token>)
    ensures password == "" ==> r == None
    ensures password != "" ==> r == FirstByPassword(TokensFromEnv(env), password)
    ensures r.Some? ==> r.value in TokensFromEnv(env) && r.value.password == password
  {
    if password == "" then None else FirstByPassword(TokensFromEnv(env), password)
  }

  /** How `findTokenByShareCode` matches a token: by its share code when it has one, else by id. */
  predicate MatchesCode(t: Token, code: string) {
    if t.shareCode != "" then t.shareCode == code else t.id == code
  }

  function FirstByCode(tokens: seq<Token>, code: string): (r: Option<Token>)
    ensures r.Some? ==> r.value in tokens && MatchesCode(r.value, code)
    ensures r.None? <==> forall t :: t in tokens ==> !MatchesCode(t, code)
    ensures r.Some? ==> exists i :: (0 <= i < |tokens| && tokens[i] == r.value &&
      forall j :: 0 <= j < i ==> !MatchesCode(tokens[j], code))
  {
    if tokens == [] then None
    else if MatchesCode(tokens[0], code) then Some(tokens[0])
    else
      var r := FirstByCode(tokens[1..], code);
      assert forall t :: t in tokens ==> t == tokens[0] || t in tokens[1..];
      if r.Some? then
        assert exists i :: (0 <= i < |tokens| && tokens[i] == r.value &&
          forall j :: 0 <= j < i ==> !MatchesCode(tokens[j], code)) by {
          var i :| 0 <= i < |tokens[1..]| && tokens[1..][i] == r.value &&
            forall j :: 0 <= j < i ==> !MatchesCode(tokens[1..][j], code);
          assert tokens[i + 1] == r.value;
          forall j | 0 <= j < i + 1 ensures !MatchesCode(tokens[j], code) {
            if j > 0 { assert tokens[j] == tokens[1..][j - 1]; }
          }
        }
        r
      else r
  }

  /** `findTokenByShareCode(env, code)`; "" stands for a missing code. */
  function FindTokenByShareCode(env: Env, code: string): (r: Option<Token>)
    ensures code == "" ==> r == None
    ensures r.Some? ==> (r.value in TokensFromEnv(env) &&
      if r.value.shareCode != "" then r.value.shareCode == code else r.value.id == code)
    ensures code != "" && r.None? ==> forall t :: t in TokensFromEnv(env) ==> !MatchesCode(t, code)
    ensures code != "" ==> r == FirstByCode(TokensFromEnv(env), code)
  {
    if code == "" then None else FirstByCode(TokensFromEnv(env), code)
  }

  /** The check of the handlers that were not made tenant-aware:
      `token !== (env.ADMIN_PASSWORD || ADMIN_PASSWORD)` rejects; "" stands for a missing header. */
  predicate AdminAuthorized(env: Env, token: string) {
    token == (if env.adminPassword != "" then env.adminPassword else DefaultPassword)
  }

  /** A token whose share code is set and differs from the code is never the
      result, whatever the other tokens are; in particular not by its id. */
  lemma ShareCodeShadowsId(env: Env, code: string, t: Token)
    requires t.shareCode != "" && t.shareCode != code
    ensures FindTokenByShareCode(env, code) != Some(t)
  {
  }
}
