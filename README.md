# Prize draw: a Dafny model

This project models the server side of a lucky-draw application. The
application runs on serverless functions over one key/value store (the
`SEAT_DATA` binding). The store holds four kinds of value:

- a roster of people `{id, name, seat}`;
- a prize list `{id, name, count, remaining, level, levelLabel}`;
- a chronological list of win records, each of which snapshots the prize and
  the winner;
- the set of excluded person ids (the people who have already won).

The store has two namespaces for these values, and the handlers do not
share one:

- **Tenant keys** `seat_data:<tenant>`, `prizes:<tenant>`,
  `winners:<tenant>` and `excludedIds:<tenant>`, where the tenant is the
  token that the caller's password selects. Draw, upload and export use
  them.
- **Un-prefixed keys** `prizes`, `winners` and `excludedIds`, guarded by
  the admin password. Prize upsert, both resets, clear prizes and
  invalidate use them, and so does the prize deletion that is not part of
  this model.

So the admin handlers never reach a tenant's values:

- A reset leaves every tenant's winners and stock as they were
  (`Reset.ResetLeavesTenants`).
- An upserted prize never reaches a tenant's draw.
- A record that a draw stored cannot be withdrawn (see "## Findings").

The only write to `prizes:<tenant>` is a successful draw. A tenant whose
prize list is absent therefore reads `[]`, and every draw of theirs fails
(`Draw.NoPrizesNoDraw`).

Each handler below is modelled as one atomic read → compute → write step on
the store:

- **draw** picks winners for one prize, on the tenant's keys.
- **invalidate** withdraws one win record, on the un-prefixed keys.
- **prize upsert** inserts or updates a prize in the un-prefixed list.
- **reset-winners** and **reset** restore the stock of every prize in the
  un-prefixed list, and empty the un-prefixed winners and excluded ids.
- **clear prizes** empties the un-prefixed prize list.
- **upload** replaces a tenant's roster.
- **export** lays out the tenant's winners as spreadsheet rows.

Around these sit two pure pieces:

- token normalisation and lookup, which maps a password to a tenant;
- the per-tenant key namespace.

The local Express server contributes three pure pieces: its upload filename
filter, its admin check and its spreadsheet-row mapping.

## Layout

- `types.dfy` (`Types`): the entities `Person`, `Prize` and `WinRecord`, the
  error tags, `Result`, and record counting.
- `idsets.dfy` (`IdSets`): the excluded-id `Set`, as an insertion-ordered
  sequence without duplicates.
- `kv.dfy` (`Kv`): `getTokenKeys` and the un-prefixed keys.
- `store.dfy` (`Store`): the store, as a map from keys to values.
  - Its reads treat an absent value as `[]`.
  - `KvStore` is a class whose `entries` the handlers update.
- `auth.dfy` (`Auth`): `normalizeTokens`, `getTokensFromEnv`,
  `findTokenByPassword`, `findTokenByShareCode` and the admin-password check.
- `invariants.dfy` (`Invariants`): what "consistent books" means.
  - Prize ids are unique.
  - Every record names a listed prize.
  - Winner ids are unique, and the excluded ids are exactly the winner ids,
    in the order they won.
  - For every prize, `count - remaining` is its number of records.
- The handlers:
  - `draw.dfy` (`Draw`)
  - `invalidate.dfy` (`Invalidate`)
  - `prizes.dfy` (`Prizes`)
  - `reset.dfy` (`Reset`)
  - `upload.dfy` (`Upload`)
  - `export.dfy` (`Export`)
  - `server.dfy` (`Server`)

Each handler is a method, which works step by step as the source does. It is
specified by a pure function of the entries it reads, and the lemmas are about
those functions.

Nondeterminism becomes parameters:

- `Math.floor(Math.random() * len)` is a caller-supplied position
  `random(i, len) < len`.
- The record ids are `recordIds(i)`.
- The draw timestamp is `time`.
- The default id of a new prize is `now`.

A string field that is `""` stands for one that JavaScript finds falsy or
absent.

## Model

| member | source | states |
|---|---|---|
| Kv.KeyFor | functions/api/_kv.js:1-6 | each key is its kind's fixed prefix (`seat_data:`, `prizes:`, `winners:`, `excludedIds:`) followed by the tenant id |
| Kv.TokenKeys | functions/api/_kv.js:1-6 | a tenant's four keys are the four kinds' keys for that tenant id |
| Kv.ParseKey | functions/api/_kv.js:2-5 | a key that parses rebuilds exactly from the kind and the id it parses to |
| Kv.ParseKeyFor | functions/api/_kv.js:2-5 | stripping the prefix of a tenant key gives back its kind and its tenant id |
| Kv.KeyForInjective | functions/api/_kv.js:2-5 | equal keys have equal kinds and equal tenant ids: tenants never share a key, and kinds never collide |
| Kv.TenantsDisjoint | functions/api/_kv.js:2-5 | two different tenants have disjoint key sets |
| Kv.KeysNameTheirTenant | functions/api/_kv.js:2-5 | every key of a tenant parses back to that tenant |
| Kv.TenantKeysDistinct | functions/api/_kv.js:2-5 | a tenant's four keys are pairwise distinct |
| Kv.GlobalKeysAreNotTenantKeys | functions/api/lottery/invalidate.js:26-30 | no tenant key equals one of the un-prefixed keys that the admin handlers use |
| Store.Save | functions/api/lottery/draw.js:113-117 | the three puts write the prizes, winners and excluded-ids keys and leave every other entry as it was |
| Store.LoadSave | functions/api/lottery/draw.js:29-37 | after saving under distinct keys, a handler reads back what it saved |
| Store.LoadSaveElsewhere | functions/api/lottery/draw.js:29-37 | a save under one key set leaves what a disjoint key set reads unchanged |
| Store.KvStore.Put | functions/api/prizes/reset.js:26 | one put: that key holds the value, every other entry is unchanged |
| Store.KvStore.SaveAll | functions/api/lottery/draw.js:113-117 | the parallel puts leave the store as `Save` describes |
| IdSets.Add | functions/api/lottery/draw.js:92 | `Set.add`: membership gains exactly x, no duplicates appear, and the order is kept (a new x goes last) |
| IdSets.AddAll | functions/api/lottery/draw.js:91-92 | adding several ids: membership is the union, and no duplicates appear |
| IdSets.FromArray | functions/api/lottery/draw.js:37 | `new Set(raw)`: the same members, without duplicates |
| IdSets.Delete | functions/api/lottery/invalidate.js:44 | `Set.delete`: membership loses exactly x, and a missing x changes nothing |
| IdSets.FromArrayOfDistinct | functions/api/lottery/invalidate.js:38 | a stored array without duplicates reads back unchanged as a set |
| IdSets.AddAllOfDistinct | functions/api/lottery/draw.js:91-92 | adding fresh, distinct ids appends them in order |
| IdSets.AddThenDelete | functions/api/lottery/invalidate.js:44 | deleting an id that was just added gives the old set back |
| IdSets.DeleteAt | functions/api/lottery/invalidate.js:44 | deleting the element at position i of a duplicate-free list splices out exactly that position |
| Types.CountFor | functions/api/lottery/draw.js:109 | the number of records for a prize is at most the number of records |
| Types.CountForAppend | functions/api/lottery/draw.js:105 | record counts add up over appended lists |
| Types.CountForRemove | functions/api/lottery/invalidate.js:41 | splicing one record out lowers only its own prize's count, by one |
| Auth.Decimal | functions/api/_auth.js:10 | `${n}`: a non-empty string of decimal digits, without a leading zero unless n is 0, whose value (`DigitsValue`) is n |
| Auth.DefaultId | functions/api/_auth.js:10 | the default id is `token_` followed by a decimal number |
| Auth.DefaultIdSpells | functions/api/_auth.js:10 | the suffix after `token_` is `Decimal(index + 1)`, digits that spell index + 1 |
| Auth.DefaultIdInjective | functions/api/_auth.js:10 | entries at different positions get different default ids |
| Auth.NormalizeOne | functions/api/_auth.js:9-17 | a missing id becomes `token_{i+1}`, the label defaults to the id, and shareCode falls back to code and then to `''`; a nullish entry gets an empty password |
| Auth.NormalizeFrom | functions/api/_auth.js:8-18 | every normalised token has a non-empty password, and there are no more tokens than entries |
| Auth.NormalizeFromMembers | functions/api/_auth.js:8-18 | a token is in the output iff some entry, at its original position, normalises to it with a non-empty password |
| Auth.NormalizeFromAppend | functions/api/_auth.js:8-18 | normalisation keeps input order: the normalised concatenation is the concatenation of the normalised parts, and the positions carry on |
| Auth.MapTokensMembers | functions/api/_auth.js:9-17 | a token comes out of the map step iff some entry normalises to it at its own position |
| Auth.KeepWithPasswordMembers | functions/api/_auth.js:18 | the filter keeps exactly the tokens with a non-empty password |
| Auth.KeepWithPasswordAppend | functions/api/_auth.js:18 | the filter keeps order: filtering a concatenation filters each part in turn |
| Auth.NormalizeTokens | functions/api/_auth.js:5-19 | a non-array gives `[]`; an array gives its entries normalised from position 0 |
| Auth.TokensFromEnv | functions/api/_auth.js:21-43 | never empty, and every password is non-empty; the precedence is TOKENS_JSON array, then `.tokens`, then ADMIN_PASSWORD, then DEFAULT_TOKENS |
| Auth.FirstByPassword | functions/api/_auth.js:48 | `find`: none iff no token has the password; otherwise the first token with it |
| Auth.FindTokenByPassword | functions/api/_auth.js:45-49 | an empty password gives null; otherwise the first configured token whose password is equal, or null |
| Auth.FirstByCode | functions/api/_auth.js:55-60 | `find`: none iff no token matches; otherwise the first token that matches |
| Auth.FindTokenByShareCode | functions/api/_auth.js:51-61 | an empty code gives null; otherwise the result is the first token, in list order, that matches (by its share code when it has one, else by its id), and null iff none matches |
| Auth.ShareCodeShadowsId | functions/api/_auth.js:56-59 | a token whose share code is set and differs from the code is never the result, whatever the other tokens are; in particular it is not found by its id |
| Invariants.FreshIsConsistent | functions/api/lottery/reset-winners.js:29-35 | prizes with unique ids, all at full stock, with no records and no exclusions are consistent |
| Invariants.CountForAbsent | functions/api/lottery/draw.js:95 | a prize that no record names has zero records |
| Draw.Candidates | functions/api/lottery/draw.js:44 | the candidates are exactly the roster members whose id is not excluded, in roster order; with nothing excluded, the whole roster |
| Draw.CandidatesAppend | functions/api/lottery/draw.js:44 | the filter keeps roster order: the candidates of a concatenation are the candidates of each part in turn |
| Draw.CandidatesDistinct | functions/api/lottery/draw.js:44 | a roster with unique ids gives candidates with unique ids |
| Draw.FindPrize | functions/api/lottery/draw.js:54 | `findIndex`: -1 iff no prize has the id; otherwise the first position with it |
| Draw.InStock | functions/api/lottery/draw.js:64 | the positions listed are exactly the prizes with `remaining > 0`, in increasing list order |
| Draw.ResolvePrize | functions/api/lottery/draw.js:53-70 | a named prize: not found iff no prize has the id; out of stock iff the first one found has `remaining <= 0`; when the first one found has stock, exactly that one. No name: fails (all out of stock) iff no prize has stock. A chosen prize always has stock |
| Draw.DrawCount | functions/api/lottery/draw.js:73 | `Math.min(parseInt(count), remaining, candidates)`: at most each of the count, the stock and the candidates, and equal to one of them; NaN iff the count does not parse |
| Draw.RemoveAt | functions/api/lottery/draw.js:83 | `splice(k, 1)`: one shorter, with the elements before k kept and the ones after k shifted down |
| Draw.RemoveAtBag | functions/api/lottery/draw.js:83 | the splice removes exactly one occurrence of the picked element |
| Draw.Picks | functions/api/lottery/draw.js:79-85 | the sampling loop's picks number exactly n |
| Draw.PicksFromPool | functions/api/lottery/draw.js:80-85 | the picks are a sub-multiset of the pool: sampling is without replacement |
| Draw.PicksMembers | functions/api/lottery/draw.js:80-85 | every pick is a member of the pool |
| Draw.PicksDistinct | functions/api/lottery/draw.js:80-85 | a pool with unique ids gives picks with unique ids |
| Draw.SampleWinners | functions/api/lottery/draw.js:79-85 | the splice loop yields the `Picks` of the candidates, drawCount of them |
| Draw.RecordWinners | functions/api/lottery/draw.js:88-106 | the `forEach` builds one record per winner in order, appends them to the winners, and adds the winners' ids to the excluded set |
| Draw.DrawSteps | functions/api/lottery/draw.js:39-110 | the guards, sampling loop, record loop and stock update, run in order, give exactly the draw's specification `DrawOn` |
| Draw.DrawOn | functions/api/lottery/draw.js:39-110 | errors come in source order: empty roster, no candidates, then the prize resolution's error; once those pass, the draw fails (insufficient capacity) exactly when the count is a number <= 0, and succeeds otherwise; nothing else fails |
| Draw.NoPrizesNoDraw | functions/api/lottery/draw.js:39-70 | on an empty prize list every draw fails, so nothing is saved |
| Draw.MakeRecordsFacts | functions/api/lottery/draw.js:93-103 | the records list the winners in order; every record snapshots the prize's id, name, level and label and shares the timestamp |
| Draw.DrawOnSuccess | functions/api/lottery/draw.js:73-110 | a successful draw: n = min(count, stock, candidates) ≥ 1 records (0 for a NaN count); the winners are drawn without replacement from the candidates; records are appended in order; excluded = old ∪ the winners' ids; only the target's stock moves, by n |
| Draw.DrawWinnersFresh | functions/api/lottery/draw.js:44-85 | with unique roster ids and excluded = past winners, the winner ids stay pairwise distinct after the draw |
| Draw.DrawKeepsListing | functions/api/lottery/draw.js:95-110 | prize ids are unchanged, and every record still names a listed prize |
| Draw.DrawKeepsCounts | functions/api/lottery/draw.js:105-109 | every prize's `count - remaining` still equals its number of records |
| Draw.DrawPreservesConsistency | functions/api/lottery/draw.js:91-110 | a draw keeps the books consistent |
| Draw.OnRequestPost | functions/api/lottery/draw.js:14-117 | an unknown password gives 401 and a missing binding an error, with no write; otherwise the draw runs on the tenant's keys, and a failure writes nothing while a success saves the three values |
| Invalidate.FindRecord | functions/api/lottery/invalidate.js:32 | `findIndex`: -1 iff no record has the id; otherwise the first position with it |
| Invalidate.InvalidateOn | functions/api/lottery/invalidate.js:32-50 | fails, with not found, iff no record has the id |
| Invalidate.WithdrawalEffect | functions/api/lottery/invalidate.js:32-50 | exactly the first record with the id is removed and the rest keep their order; only that winner's id leaves the excluded set; a listed prize gets exactly one unit back, others are unchanged; an unlisted prize leaves the list unchanged |
| Invalidate.RestockIsUnclamped | functions/api/lottery/invalidate.js:49 | the restock is not clamped: remaining can exceed count |
| Invalidate.RemoveRecordIds | functions/api/lottery/invalidate.js:41 | splicing a record splices its winner id out of the winner ids |
| Invalidate.RestockKeepsCounts | functions/api/lottery/invalidate.js:41-50 | giving one unit back to the withdrawn record's prize keeps every `count - remaining` equal to its number of records |
| Invalidate.WithdrawAtKeepsConsistency | functions/api/lottery/invalidate.js:37-50 | from consistent books, the withdrawal at any record position finds the record's prize listed and leaves the books consistent |
| Invalidate.WithdrawalKeepsConsistency | functions/api/lottery/invalidate.js:41-50 | a withdrawal from consistent books leaves them consistent |
| Invalidate.InvalidatePreservesConsistency | functions/api/lottery/invalidate.js:41-50 | from consistent books (distinct prize ids, distinct winner ids equal to the excluded list, every record naming a listed prize, `count - remaining` equal to the records) invalidate gives consistent books |
| Invalidate.InvalidateKeepsExcludedWinners | functions/api/lottery/invalidate.js:37-44 | with unique winner ids equal, as a set, to the excluded ids, invalidate keeps the ids unique and that equality, with no assumption about prizes |
| Invalidate.OnRequestPost | functions/api/lottery/invalidate.js:13-57 | a wrong admin password gives 401 and a missing binding an error, with no write; a missing record gives 404 with no write; otherwise the three values are saved under the un-prefixed keys |
| Invalidate.Withdraw | functions/api/lottery/invalidate.js:26-57 | the splice, delete and restock steps save exactly what `InvalidateOn` computes, or write nothing when the record is missing |
| Invalidate.DrawnRecordNotFound | functions/api/lottery/invalidate.js:26-35 | as written, a record that the draw has just saved under a tenant's keys is not found |
| Invalidate.TenantSaveNotFound | functions/api/lottery/invalidate.js:26-35 | a save under a tenant's keys leaves the un-prefixed winners list as it was |
| Invalidate.OnRequestPostForTenant | functions/api/lottery/invalidate.js:26-57 | the same step on the keys of the caller's tenant, resolved as the draw resolves them |
| Invalidate.TenantWithdrawalUndoesDraw | functions/api/lottery/invalidate.js:32-50 | on the tenant's keys, withdrawing the record of a one-winner draw restores prizes, winners and excluded ids exactly |
| Invalidate.WithdrawalUndoesDraw | functions/api/lottery/invalidate.js:32-50 | the same round trip on one snapshot |
| Invalidate.UndoOne | functions/api/lottery/invalidate.js:32-50 | withdrawing a record just appended, whose winner was just excluded and whose prize just lost one unit, gives back the winners, prizes and excluded ids as they were |
| Invalidate.UndoAppend | functions/api/lottery/invalidate.js:32-41 | a record appended under a fresh id is found last, and splicing it out gives the old list |
| Invalidate.UndoExclude | functions/api/lottery/invalidate.js:44 | excluding a fresh id and deleting it gives the old set |
| Invalidate.UndoTake | functions/api/lottery/invalidate.js:47-49 | taking one unit from a prize with a unique id and giving it back by id gives the old list |
| Invalidate.ListedPrizeIsFound | functions/api/lottery/invalidate.js:47 | a listed prize id is found |
| Invalidate.RestockKeepsIds | functions/api/lottery/invalidate.js:49 | the restock keeps every prize id |
| Prizes.UpdatedRemaining | functions/api/prizes.js:66-70 | never negative; without the clamp, `count - remaining` is kept; with it, 0 |
| Prizes.UpsertOn | functions/api/prizes.js:45-73 | rejected, with 400, iff the name is missing or the count is falsy; the prize returned is the one stored |
| Prizes.UpsertEffect | functions/api/prizes.js:56-72 | defaults are timestamp id, `participation` and `参与奖`; an unknown id is appended at full stock after the untouched list; a known id is replaced at its first position, by the delta rule with the clamp, and every other prize stays |
| Prizes.UpsertKeepsIdsDistinct | functions/api/prizes.js:65-72 | an upsert keeps prize ids unique |
| Prizes.UpsertPreservesConsistency | functions/api/prizes.js:65-72 | unless the clamp fires, an upsert keeps the books consistent |
| Prizes.ClampForgetsRecords | functions/api/prizes.js:67-68 | when the clamp fires, `count - remaining` no longer counts the prize's records |
| Prizes.OnRequestPost | functions/api/prizes.js:35-79 | a wrong admin password gives 401 and an invalid body 400, with no write; otherwise the upsert runs on the stored prizes (`[]` without a binding), is put when there is a binding, and the stored prize is returned |
| Reset.Restocked | functions/api/lottery/reset-winners.js:29 | every prize is at full stock, and only the stock changed: length, order, ids, names, counts and levels are kept |
| Reset.RestoreStock | functions/api/lottery/reset-winners.js:29 | the in-place `forEach` gives the restocked list |
| Reset.RestockedIdempotent | functions/api/lottery/reset-winners.js:29 | restocking twice is restocking once |
| Reset.RestockedKeepsIds | functions/api/lottery/reset-winners.js:29 | restocking keeps every prize id |
| Reset.ResetOn | functions/api/lottery/reset-winners.js:26-36 | prizes are restocked, winners and excluded are empty, and every other key is untouched |
| Reset.ResetLeavesTenants | functions/api/lottery/reset-winners.js:26-36 | a reset writes only un-prefixed keys, so every tenant's roster, prizes, winners and excluded ids read as before |
| Reset.ResetIdempotent | functions/api/lottery/reset-winners.js:26-36 | two resets leave the store as one does |
| Reset.ResetIsConsistent | functions/api/lottery/reset-winners.js:26-36 | after a reset the books are consistent, given unique prize ids |
| Reset.ResetAll | functions/api/lottery/reset-winners.js:26-36 | the read, restock and three puts leave the store as `ResetOn` describes |
| Reset.OnResetWinners | functions/api/lottery/reset-winners.js:14-36 | a wrong token gives 401 and a missing binding an error, with no write; otherwise the store becomes `ResetOn` of the old store |
| Reset.OnReset | functions/api/lottery/reset.js:13-32 | the same outcomes as reset-winners, for every store |
| Reset.ClearPrizesOn | functions/api/prizes/reset.js:26 | the prize list reads empty, and every other key, winners and excluded included, is untouched |
| Reset.ClearPrizesIdempotent | functions/api/prizes/reset.js:26 | clearing twice is clearing once |
| Reset.ClearPrizesStrandsRecords | functions/api/prizes/reset.js:26 | with a record stored, clearing leaves it naming an unlisted prize |
| Reset.OnClearPrizes | functions/api/prizes/reset.js:14-26 | a wrong token gives 401 and a missing binding an error, with no write; otherwise only the prizes key is overwritten with `[]` |
| Upload.CheckItems | functions/api/upload.js:39-50 | accepted iff every item has string id, name and seat, and then stored unchanged, in order; otherwise it stops at the first bad item, with 400, or with 500 when that item is null |
| Upload.Validate | functions/api/upload.js:28-36 | absent, non-array or empty data is rejected with 400 before any item is looked at |
| Upload.UploadOn | functions/api/upload.js:53-55 | the roster is stored under `seat_data:<tenant>` and nothing else changes |
| Upload.UploadIsTenantLocal | functions/api/upload.js:53-55 | every other tenant, and the un-prefixed keys, read what they read before |
| Upload.OnRequestPost | functions/api/upload.js:16-69 | an unknown token gives 401, invalid data 400, and a missing binding 500, with no write in each case; otherwise one put and the item count |
| Export.Leading | functions/api/lottery/export.js:31 | counts the white space at the start |
| Export.Trailing | functions/api/lottery/export.js:31 | counts the white space at the end |
| Export.Trim | functions/api/lottery/export.js:31 | `trim`: a slice with only white space cut off on either side, neither starting nor ending with white space |
| Export.TrimEmptyIffBlank | functions/api/lottery/export.js:31 | the trimmed string is empty iff the string is all white space |
| Export.HasSeatInfo | functions/api/lottery/export.js:31 | true iff some record's seat is not blank |
| Export.Header | functions/api/lottery/export.js:34-36 | six labels with a seat column, five without |
| Export.Widths | functions/api/lottery/export.js:76-78 | one width per header label |
| Export.RowFollowsHeader | functions/api/lottery/export.js:53-66 | a row is as wide as the header, and each cell holds the field that its column's label names |
| Export.SheetRows | functions/api/lottery/export.js:34-69 | 1 + \|winners\| rows: the header, then one row per record in list order |
| Export.SheetIsRectangular | functions/api/lottery/export.js:34-69 | every row is as wide as the header |
| Export.BuildSheet | functions/api/lottery/export.js:34-78 | the pushes build exactly the sheet rows and the widths |
| Export.OnRequestGet | functions/api/lottery/export.js:12-78 | an unknown token gives 401; otherwise the sheet of the tenant's winners (none without a binding); nothing is written |
| Server.FileFilterIsRegex | server.js:23 | a filename is accepted iff `/\.(xlsx\|xls)$/` matches, i.e. it ends in `.xlsx` or `.xls` |
| Server.AuthMiddlewareIsDefaultAdmin | server.js:31-37 | the middleware passes iff the token is the fixed admin password, the handlers' admin check with nothing configured |
| Server.Keys | server.js:57-59 | `Object.keys` of a row, in order |
| Server.FindKey | server.js:57-59 | `find`: none iff no key passes; otherwise the first key that passes |
| Server.Lookup | server.js:62-64 | the value of the first cell with the key (`''` when that value is empty), and `''` when no cell has the key |
| Server.KeepNamed | server.js:66 | only rows with a non-empty id and name are kept |
| Server.KeepNamedAppend | server.js:66 | the filter keeps order |
| Server.KeepNamedKeeps | server.js:66 | the filter drops nothing that has an id and a name |
| Server.FormatRowsKeepsNamed | server.js:56-66 | every row with an id and a name becomes a roster entry |
| Server.FormatRowsAppend | server.js:56-66 | the roster keeps the row order |
| Server.FallbacksReadEmpty | server.js:57-64 | when no header passes a column's test, the fallback header is absent too, so the column reads `''` |

## Left out

- HTTP plumbing is not modelled:
  - response bodies and headers, CORS and the `onRequestOptions` handlers;
  - status codes, which appear only as error tags;
  - console logging.
- Request-body parsing is not modelled. The parsed body is a parameter, so a
  body that does not parse, or a null body, is not modelled.
- `parseInt` and `JSON.parse` are taken as already applied.
  - The draw's count is a number or NaN.
  - The prize count is `None` when it is falsy and otherwise the parsed number.
  - A truthy prize count that does not parse (NaN) is not modelled.
- Ids and other fields are strings. A non-string id is not modelled. Neither
  are the loose JavaScript comparisons that such an id would meet, for example
  `String(emp.id)` against `w.id`.
- Stored values have four kinds. A value of the wrong kind reads as `[]`, like
  an absent one.
- An uploaded item keeps only its id, name and seat. Its other properties are
  not stored.
- `Math.random`, `Date.now()` and `new Date().toISOString()` are parameters.
  So is the record-id format.
- The store's reads and writes are one atomic step per handler. Concurrent
  requests and a partial `Promise.all` are not modelled.
- The XLSX encoding and `toLocaleString` date formatting of the export are not
  modelled. The formatting is the `format` parameter.
- Of server.js, only the filename filter, the middleware check and the row
  mapping are modelled. These parts are not:
  - the express, multer, fs and xlsx I/O;
  - numeric cell values, which are text here.
- The following are not part of this model:
  - main.ts;
  - the read-only handlers `data.js`, `winners.js` and `template.js`;
  - `check-auth.js`;
  - the prize list `onRequestGet`;
  - `prizes/[id].js`;
  - `src/router.js`.

## Findings

| source | as written | input that shows it | evidently intended | confidence | as-written member | corrected member |
|---|---|---|---|---|---|---|
| functions/api/lottery/invalidate.js:26-30 | invalidate reads and writes the un-prefixed keys `winners`, `prizes` and `excludedIds`, and checks the admin password. The draw handler stores records under the tenant's keys `winners:<tenant>` and so on. | Start from a store with no un-prefixed winners list. Draw one winner for any tenant, then invalidate the new record's id: the answer is 404. | Invalidate works on the same tenant keys as draw, so that withdrawing a record of a one-winner draw undoes the draw. | not executed | Invalidate.OnRequestPost, Invalidate.DrawnRecordNotFound | Invalidate.OnRequestPostForTenant, Invalidate.TenantWithdrawalUndoesDraw |
