# Country API core, modelled in Dafny

The service keeps a `countries` table, one row per country, keyed on `name_normalized`. That key
is the slug of the lower-cased name. A refresh fetches the country list and the USD exchange
rates, truncates the table, and then derives one row per usable entry. Each row has a currency
code, a rate and an estimated GDP, where GDP is population × a random multiplier in
[1000, 2000] ÷ rate. The refresh then upserts the rows, invalidates the cache and draws a summary
image of the five largest economies. The model also gives a corrected refresh that builds the rows
before it writes anything. Reads filter and sort the table, look a country up by name, delete
one, and report the row count with the latest refresh time. The `Country` model's `saving` hook
keeps `name_normalized` in step with `name`.

Modules, in dependency order:

- `Wrappers` (wrappers.dfy): `Option`.
- `Text` (text.dfy): ASCII lower/upper case, PHP's `trim` and `empty`, and `Str::slug`, with the
  slug's properties.
- `Records` (records.dfy): the raw API entry, the table row, and `Derive`. `Derive` is the per-entry
  body of the refresh loop: skip, row, or the division by a zero rate that throws.
- `Table` (table.dfy): the table as a map from key to row, and the upsert on `name_normalized`.
- `Listing` (listing.dfy): the `getAll` filters, the five orderings, an insertion sort, a scan of
  the table, and the top-five selection.
- `Refresh` (refresh.dfy): `refreshAll` as a function of the fetch outcomes, the previous table and
  the environment (clock, random draws, cache capabilities), with its properties. Also the corrected
  all-or-nothing refresh.
- `Service` (service.dfy): class `CountryService` holding the table, the log of cache
  invalidations and the summary image. Its methods implement the service's operations step by step
  and are proved against the functions above. Its refresh is the corrected one from the findings
  below: it builds every row before it truncates.
- `Models` (models.dfy): class `Country` with the `saving` hook, and the factory's `create`.

The clock, `rand(1000, 2000)`, the HTTP responses, whether the cache store supports tags, and
whether the summary image could be drawn and saved are all inputs (`Env`, `Fetch`).

## Model

| member | source | states |
|---|---|---|
| Text.Trim | app/Services/CountryService.php:56 | the trimmed name is a contiguous slice of the input such that everything removed before and after it is a character PHP's `trim` strips, and it neither starts nor ends with such a character |
| Text.Slug | app/Models/Country.php:39 | a key is always slug-shaped: lower-case letters, digits and single inner hyphens, never a hyphen at either end |
| Text.SlugIdempotent | app/Services/CountryService.php:258 | slugging a slug changes nothing |
| Text.SlugIgnoresCase | app/Models/Country.php:39 | the slug of the lower-cased name equals the slug of the name |
| Text.SlugIgnoresTrim | app/Services/CountryService.php:56-57 | trimming before slugging does not change the slug |
| Text.SlugOfSpacedWords | tests/Unit/CountryServiceTest.php:27 | words of letters and digits separated by single spaces become the lower-cased words joined by hyphens |
| Text.SlugDropsPunctuation | tests/Unit/CountryServiceTest.php:30 | a character that is not a letter, digit, hyphen or whitespace (an apostrophe, say) is deleted without leaving a hyphen |
| Records.NameKey | app/Models/Country.php:39 | the key of a name, `Str::slug(mb_strtolower(name))`, is always a slug: lower-case letters and digits in runs joined by single hyphens. Its properties are stated by `NameKeyOfQuery`, `CaseVariantsShareKey` and `NameKeyIdempotent` |
| Records.NameKeyOfQuery | app/Services/CountryService.php:258 | the lookup key of a query ignores surrounding blanks and letter case |
| Records.CaseVariantsShareKey | app/Services/CountryService.php:258 | two queries that differ only in letter case and surrounding blanks look up the same key |
| Records.NameKeyIdempotent | app/Services/CountryService.php:258-259 | a stored key, used as a query, derives itself again |
| Records.Derive | app/Services/CountryService.php:49-98 | entries with an empty name or no population are skipped. When the first currency code is truthy and has a rate of 0, the division throws. Otherwise the row has the trimmed name, the key derived from it, the first currency code, and GDP = population × multiplier ÷ rate when priced. GDP is 0 when the currency list is empty and absent otherwise. All three timestamps are the cycle's `now` |
| Records.GdpWithinMultiplierRange | app/Services/CountryService.php:73-77 | for a positive rate and a non-negative population, the GDP lies between population × 1000 ÷ rate and population × 2000 ÷ rate |
| Table.Upsert | app/Services/CountryService.php:103-111 | a new key is inserted; an existing row takes every column of the update list from the new row but keeps its `created_at`; other rows are unchanged |
| Table.UpsertAllFromEmpty | app/Services/CountryService.php:102-112 | upserting rows that share one `created_at`, as a refresh's rows do, into an empty table keeps exactly one row per key among them, the last one for that key |
| Table.UpsertAllCoherent | app/Services/CountryService.php:102-112 | upserting rows whose keys derive from their names keeps every stored key derived from its row's name |
| Listing.NameLeTotal | app/Services/CountryService.php:227 | the name tie-break order compares any two names |
| Listing.NameLeTransitive | app/Services/CountryService.php:227 | the name tie-break order is transitive |
| Listing.Selected | app/Services/CountryService.php:215-221 | a row passes when it matches each non-empty filter: region by equality, currency code by equality with the upper-cased filter. With no non-empty filter every row passes, and a row passing a currency filter has an upper-case code |
| Listing.OrderingFor | app/Services/CountryService.php:224-247 | the ordering `getAll` applies: `created_at` exactly when `sort` is empty, one of the four named orderings with `name` as tie-break, or none for any other value. It is never the summary's GDP-or-zero ranking |
| Listing.BeforeTotal | app/Services/CountryService.php:224-247 | every ordering `getAll` can apply compares any two rows |
| Listing.BeforeTransitive | app/Services/CountryService.php:224-247 | every ordering `getAll` can apply is transitive |
| Listing.SortRows | app/Services/CountryService.php:250 | the sorted rows are a permutation of the input |
| Listing.SortRowsSorted | app/Services/CountryService.php:224-247 | the sorted rows are in the requested order |
| Listing.InsertSorted | app/Services/CountryService.php:224-247 | inserting a row into an ordered sequence keeps it ordered |
| Listing.NoDupPermutation | app/Services/CountryService.php:250 | a permutation of a sequence without repeats has no repeats |
| Listing.Scan | app/Services/CountryService.php:212-221 | the scan yields each row of the table that passes the region and currency filters exactly once, and nothing else |
| Listing.TopFive | app/Services/CountryService.php:143-145 | the selection has min(5, row count) distinct rows of the table in descending GDP order, absent GDP counting as 0, and no row left out has a larger GDP than a selected one |
| Listing.PrefixOfRankingIsTop | app/Services/CountryService.php:143-145 | taking the first rows of a GDP-descending ranking of the whole table yields rows of the table, and no row left out outranks a taken one |
| Refresh.RefreshOutcome | app/Services/CountryService.php:19-134 | the outcome of one call as written: fetch failures return early, the truncate comes before the loop, a throw in the loop leaves the table empty, and a store without tags fails after the write. Its properties are stated by `FetchFailureChangesNothing`, `FailuresAre503`, `SuccessfulRefresh`, `RefreshReplacesEverything`, `SingleEntryRefresh`, `ZeroRateEmptiesTable` and `UntaggedCacheReportsNoChange` |
| Refresh.CollectThrown | app/Services/CountryService.php:49-99 | once an entry has thrown, the loop yields no rows, whatever follows it |
| Refresh.CollectRows | app/Services/CountryService.php:49-99 | when no entry throws, the rows are exactly the rows the entries derive, and no entry threw |
| Refresh.CollectLatest | app/Services/CountryService.php:49-99 | the last collected row for a key is the last entry's row for that key |
| Refresh.CollectThenUpsert | app/Services/CountryService.php:47-112 | after the truncate and the upserts, the table holds one row per derived key and nothing else; that row is the last derived for the key, stamped with `now` and coherent |
| Refresh.FetchFailureChangesNothing | app/Services/CountryService.php:28-38 | if either source fails, the table and the cache are untouched and the call is a 503. The message names the countries or the exchange source for an unsuccessful response, and reads "No data was changed" for an unreachable one |
| Refresh.FailuresAre503 | app/Services/CountryService.php:127-133 | every failure leaving the refresh has status 503, and the image is drawn exactly when the refresh succeeds |
| Refresh.BuiltTable | app/Services/CountryService.php:47-112 | the table left by the truncate and the upserts holds one row per key of an accepted entry and no other. That row is the derivation of the last accepted entry with the key, and carries a coherent key and the cycle's `now` |
| Refresh.SuccessfulRefresh | app/Services/CountryService.php:43-126 | after a successful refresh, the table holds one row per distinct key among the accepted entries and nothing else. That row is the derivation of the last accepted entry with the key. Every row is stamped with `now` and has a coherent key. The reported total is the row count. The status key and the `countries` tag were each invalidated once, in that order |
| Refresh.RefreshReplacesEverything | app/Services/CountryService.php:47 | a successful refresh does not depend on the table's previous contents |
| Refresh.SingleEntryRefresh | app/Services/CountryService.php:47-126 | a refresh from one accepted entry whose rate is not zero, on a store with tags, succeeds with a total of 1. It leaves exactly that entry's row under its key, whatever rows the table held before |
| Refresh.ZeroRateEmptiesTable | app/Services/CountryService.php:73-77 | as written, an accepted entry priced at rate 0 makes the call report "No data was changed" while leaving the table empty |
| Refresh.ZeroRateExample | app/Services/CountryService.php:47 | a concrete table with one row, refreshed from one entry at rate 0, ends empty |
| Refresh.UntaggedCacheReportsNoChange | app/Services/CountryService.php:116-117 | as written, a cache store without tags makes the call report "No data was changed" after the table was already replaced |
| Refresh.AtomicRefresh | app/Services/CountryService.php:19-134 | the corrected refresh: the rows are built before anything is written, so a failure leaves the table as it was, and a store without tags only skips the tag flush. Its properties are stated by `AtomicRefreshAllOrNothing` |
| Refresh.AtomicRefreshAllOrNothing | app/Services/CountryService.php:127-133 | in the corrected refresh, a reported failure leaves the table and the cache untouched, and a store without tags no longer fails a completed write. Wherever the refresh as written succeeds, the two agree exactly |
| Service.DeriveRows | app/Services/CountryService.php:49-99 | the entry loop yields the rows of the accepted entries in order, or nothing once an entry throws |
| Service.CountryService.RefreshAll | app/Services/CountryService.php:19-134 | implements the corrected refresh from the findings below. The result, the new table and the invalidations are those of the corrected refresh, and are identical to the code as written wherever the code as written succeeds. After a success the summary shows a top five of the new table if the image was saved; otherwise the summary is unchanged |
| Service.CountryService.UpsertRows | app/Services/CountryService.php:102-112 | the chunked upserts write the rows one after the other and keep every row under its own key |
| Service.CountryService.GenerateSummaryImage | app/Services/CountryService.php:139-204 | on success the image lists a top-five selection ranked from 1, with the row count and the time. A failure is swallowed and leaves the old image |
| Service.CountryService.GetAll | app/Services/CountryService.php:210-251 | returns each row passing the filters exactly once and no other. The region is matched exactly and the currency upper-cased. The order is the `sort` parameter's, `created_at` when it is empty, and any order for an unrecognised value |
| Service.CountryService.GetByName | app/Services/CountryService.php:256-262 | none exactly when no row matches the query's key or trimmed name; otherwise a matching row of the table. In a table whose keys derive from the names, exactly the row stored under the query's key |
| Service.CountryService.DeleteByName | app/Services/CountryService.php:267-279 | false with the table unchanged when nothing matches; otherwise true, with exactly one matching row removed and every other row unchanged |
| Service.CountryService.GetStatus | app/Services/CountryService.php:284-294 | the total is the row count; the last refresh time is the largest `last_refreshed_at` among the rows, and absent exactly when the table is empty |
| Models.Country.Saving | app/Models/Country.php:37-41 | a dirty name re-derives `name_normalized`; a clean name leaves it untouched |
| Models.Country.Save | app/Models/Country.php:37-41 | saving runs the hook and leaves the name clean; a key that matched the name, or a changed name, leaves the model with the key its name derives |
| Models.CreateFromFactory | database/factories/CountryFactory.php:15-16 | a factory-made country whose name is overridden gets the key of the overriding name, not the factory's precomputed one |
| Models.UpperCaseNameExample | tests/Unit/CountryServiceTest.php:29 | `NIGERIA` is stored under `nigeria` |
| Models.ApostropheNameExample | tests/Unit/CountryServiceTest.php:30 | `cote d'ivoire` is stored under `cote-divoire` |

## Left out

- HTTP fetching, TLS options, timeouts, URLs and JSON decoding are not modelled. Each source is an outcome (`Fetch`) and the decoded body is an input. An entry list that is not a list is left out with JSON.
- The drawing, fonts, colours, `number_format` and disk write of the summary image are not modelled. The model records what the image shows and whether saving succeeded.
- The cache backend is not modelled. Invalidations are recorded as events, and whether the store supports tags is an input.
- Floating-point arithmetic is modelled as `real`, so rounding, integer overflow into float, and the `(int)`/`(float)` casts of non-numeric JSON are left out.
- Text.Slug: covers ASCII input only. Transliteration of non-ASCII letters (`São Tomé`), Laravel's mapping of `_` to `-`, and of `@` to `at` are not modelled; the `Str::slug` library source is not part of this model.
- Text.Trim and Text.Lower: ASCII only; multibyte case mapping is left out.
- Text.Upper: ASCII only; the multibyte case mapping of `mb_strtoupper` on the currency filter is left out.
- Records.CountryRow: `last_refreshed_at` and `created_at` are nullable columns in the migration but plain integers in the model, because every writer in the service sets them. The status report's "no timestamp exactly when the table is empty" relies on that.
- Service.CountryService.GetByName: the `LIKE` branch is modelled as an exact match on the trimmed name. Wildcards and case-insensitive collations are database-dependent.
- Service.CountryService.DeleteByName: inherits the exact-match reading of the `LIKE` branch.
- Service.CountryService.GetAll: NULL GDP sorts lowest and names compare by code point, as on SQLite and MySQL with a binary collation. Other databases order these differently. The region and currency filters (`Listing.Selected`) compare exactly, as on SQLite or a binary collation; under a case-insensitive collation they would also match other letter cases.
- Service.CountryService.GetAll: `whereNotNull('name')` and `whereNotNull('population')` filter nothing, because both columns are `NOT NULL` in the schema and non-optional in the row type.
- Service.CountryService.UpsertRows: which duplicate key wins inside one chunk is database-dependent, so the model takes the later row. The chunk size of 500 does not affect the result and is not modelled.
- Refresh.RefreshOutcome: database errors during the truncate or the upserts are not modelled, and neither are errors decoding a body that is not an object.
- Logging (`Log::warning`, `Log::error`) is not modelled.
- The HTTP controller, the routes, the `getCode()` mapping to a 503 response and the 204 on delete are not modelled. Neither are the seeders, the migration, the Blade view, the banner script or the performance tests.
- The service does not reject an unrecognised `sort` value; it applies no ordering at all, and the model follows the code (`Unspecified`).
- The service only checks that a rate is present, not that it is positive, and the model follows the code. That is what makes the zero-rate finding below reachable.
- Concurrent refreshes are not modelled. The service takes no lock, so two overlapping calls can interleave one call's truncate with the other's upserts; the model runs one call at a time.

## Findings

| source | as written | input that shows it | evidently intended | confidence | as-written member | corrected member |
|---|---|---|---|---|---|---|
| app/Services/CountryService.php:47 | the table is truncated before the rows are built, outside a transaction. An entry priced at rate 0 then makes the division at line 77 throw. The handler at lines 127-133 reports "No data was changed" | a table holding `nigeria`; the entries list Nigeria with currency `NGN`, and the rates map `NGN` to 0. The table ends empty, yet the message says nothing changed | a failed refresh leaves the table as it was | not executed | Refresh.ZeroRateEmptiesTable | Refresh.AtomicRefreshAllOrNothing |
| app/Services/CountryService.php:117 | `Cache::tags` runs after the upserts. On a store without tag support it throws, and the call reports "No data was changed" although the table was replaced | any successful fetch with a cache store that has no tags (file or database driver) | a completed write is reported as a success, and invalidation does not depend on tag support | not executed | Refresh.UntaggedCacheReportsNoChange | Refresh.AtomicRefreshAllOrNothing |
