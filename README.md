# Country currency store — a Dafny model

This project models the core of a small country/currency REST service: the
`countries` table and its singleton `refresh_metadata` row, and the controller
operations that read and change them.

- **Refresh** (`POST /countries/refresh`). The countries fetch is checked
  first, then the rates fetch; either failure gives a 503. Then, inside one
  transaction, each source record is merged with the exchange-rate table. The
  merge takes the first currency, its rate (missing or zero becomes NULL) and
  the estimate `population * m / rate`. The merged row is upserted on the
  lower-cased name. Finally the rows are counted into the metadata. Any failing
  statement rolls the whole transaction back.
- **Delete** (`DELETE /countries/:name`). Every row whose name matches
  case-insensitively is deleted. No match gives a 404. After a delete the rows
  are recounted into the metadata, outside any transaction.
- **Lookup** (`GET /countries/:name`). Returns the first row whose name matches
  case-insensitively.
- **Listing** (`GET /countries`). Applies the optional `region` and `currency`
  filters together (AND). Then orders by `gdp_desc`, `gdp_asc`, `name_asc` or
  `name_desc`; any other key, or none, gives name ascending.

Files:

- `wrappers.dfy` (`Wrappers`): `Option`, standing for SQL NULL and JavaScript's
  null/undefined.
- `countries.dfy` (`Countries`): the source record, the table row, the metadata
  row, `Lower`, and the per-country merge with its bounds.
- `table.dfy` (`Table`): the unique-name invariant and the case-insensitive
  `FindName`.
- `reconcile.dfy` (`Reconcile`): the refresh as a function (`Upsert`,
  `UpsertAll`) and the lemmas about it.
- `seqs.dfy` (`Seqs`): selection of elements by a condition, as a WHERE clause
  does it.
- `query.dfy` (`Query`): lookup, the rows a delete keeps, filter, sort order,
  listing.
- `store.dfy` (`Store`, `Scenarios`): the class `CountryStore`, whose
  `Refresh` and `Delete` methods change `rows` and `metadata`. `Refresh` runs the
  refresh loop imperatively and is proved equal to `UpsertAll`. `Scenarios` is a
  client: one refresh of "Nigeria", a refresh as "NIGERIA", a delete of
  "nigeria" and a second delete, each with the response it must give.

Randomness, the clock and failures are inputs:

- `Math.random()` becomes one multiplier per country, each in [1000, 2000).
- `NOW()` becomes a `now` timestamp.
- Each external fetch becomes a `Fetch` value (`Fetched(data)` or
  `FetchFailed(error)`).
- A database failure becomes a parameter naming the statement that fails:
  `failAt` for a refresh, `DeleteFault` for a delete.

The class invariant `Valid()` is "at most one row per lower-cased name".
`Consistent()` (the metadata count equals the row count) is established by
every successful refresh and delete. It is not an invariant: a delete whose
recount fails leaves the metadata stale, exactly as the controller does.

### Behaviour of the code worth knowing

- A rate of 0 is treated like a missing rate: the rate and the estimate are
  both NULL. This is because line 51 writes `exchangeRates[code] || null`.
- Both fetches run one after the other, and both finish before either result is
  looked at (lines 12-28). When both fail, the countries error is the one
  reported.
- For population 0 the estimate is exactly 0, so it is not below
  `population * 2000 / rate`. The half-open range holds only for population > 0.
- The metadata recount after a delete (lines 264-271) is a separate statement
  outside any transaction, so the metadata can fall out of step with the rows.

## Model

| member | source | states |
|---|---|---|
| `Countries.Merge` | src/controllers/countryController.js:44-61 | Without currencies (absent or empty array), the code, rate and estimate are NULL, NULL and exactly 0. With currencies, the code is that of the first one. The rate is present exactly when the table has that code with a non-zero rate, and then it is that rate. The estimate is NULL exactly when there is a currency but no rate. A population of 0 gives an estimate of 0 |
| `Countries.EstimateBounds` | src/controllers/countryController.js:54-57 | With a positive rate, the estimate lies between population·1000/rate and population·2000/rate. The upper bound is strict whenever population > 0 |
| `Countries.SourceRow` | src/controllers/countryController.js:95-108 | The target row keeps the source name and population and is stamped with this refresh's NOW(). Capital, region and flag are NULL exactly when absent or empty, and otherwise are the source values. Code, rate and estimate are those of the merge |
| `Table.FindName` | src/controllers/countryController.js:63-69 | Returns the first row whose lower-cased name equals the lower-cased key. It returns none exactly when the key's lower-cased form is not among the table's lower-cased names |
| `Table.UniqueCount` | src/controllers/countryController.js:119-126 | In a table with unique names, the row count (what COUNT(*) stores in the metadata) equals the number of distinct lower-cased names |
| `Reconcile.Upsert` | src/controllers/countryController.js:63-110 | The table grows by one row exactly when the lower-cased name is new, and the new last row is the incoming one. Every existing row is either unchanged, or matches the name and holds all incoming columns under its own stored name |
| `Reconcile.UpsertNames` | src/controllers/countryController.js:63-110 | After an upsert, the lower-cased names are the old ones plus the incoming one |
| `Reconcile.UpsertKeepsNamesUnique` | src/controllers/countryController.js:63-110 | An upsert keeps at most one row per lower-cased name |
| `Reconcile.UpsertStores` | src/controllers/countryController.js:69-110 | After an upsert, a case-insensitive lookup of the incoming name finds a row that holds every incoming column except the name |
| `Reconcile.UpsertKeepsOtherNames` | src/controllers/countryController.js:63-110 | An upsert does not change which row a different name is found at |
| `Reconcile.UpsertAllKeepsNamesUnique` | src/controllers/countryController.js:43-116 | A whole refresh batch keeps names unique, even when the batch holds case variants of one name |
| `Reconcile.UpsertAllNames` | src/controllers/countryController.js:43-116 | After a refresh, the lower-cased names are the old ones united with the incoming ones, so no row is removed |
| `Reconcile.UpsertAllKeepsRows` | src/controllers/countryController.js:43-116 | A refresh keeps every existing row at its place with its stored name, and only appends rows |
| `Reconcile.UpsertAllOfKnownNames` | src/controllers/countryController.js:63-92 | A batch whose names are all stored already only updates: the row count and every stored name are unchanged |
| `Reconcile.RefreshTwiceSameNames` | src/controllers/countryController.js:43-116 | Refreshing twice with the same source records gives the same row count and the same stored names as refreshing once. This holds whatever the multipliers, rate tables and clocks are |
| `Reconcile.LastRowWins` | src/controllers/countryController.js:43-116 | After a refresh, looking up the name of the last batch record with that lower-cased name finds a row holding every column of that record except the name |
| `Store.MergeRow` | src/controllers/countryController.js:44-108 | The loop body's imperative computation of currency, rate, estimate and the nulled columns yields exactly the row `SourceRow` specifies |
| `Store.CountryStore.Write` | src/controllers/countryController.js:63-110 | One country's SELECT and then UPDATE or INSERT changes the rows exactly as `Upsert` does, leaves the metadata alone and keeps names unique |
| `Store.CountryStore.Refresh` | src/controllers/countryController.js:12-166 | A failed countries fetch gives a 503 with its error. Otherwise a failed rates fetch gives a 503 with its error. When both fetches succeed, a failing statement gives a 500 (`RefreshFailed`). In all three cases rows and metadata are unchanged. On success the rows are `UpsertAll` of the old rows and the merged batch. The metadata is then (row count, now), and the response carries them. The stored count is also the number of distinct lower-cased names, and names stay unique |
| `Store.CountryStore.Delete` | src/controllers/countryController.js:250-282 | A 404 happens exactly when the DELETE runs and no name matches; then nothing changes. A failing DELETE also changes nothing. On success every matching row is gone, the table shrank, and the metadata count equals the row count. A failing recount leaves the rows deleted and the metadata stale |
| `Query.Lookup` | src/controllers/countryController.js:226-237 | The result is none (404) exactly when no row matches case-insensitively. Otherwise it is a stored row that matches. With unique names it is the only matching row |
| `Query.RemoveByNameSpec` | src/controllers/countryController.js:252-261 | A delete keeps exactly the rows whose name does not match. It affects no row exactly when no row matches, and then the table is unchanged |
| `Query.FilterKeepsNamesUnique` | src/controllers/countryController.js:252-255 | Deleting rows keeps names unique |
| `Seqs.Filter` | src/controllers/countryController.js:174-186 | A WHERE selection keeps each row as often as it is stored when the row satisfies the condition, and drops it otherwise |
| `Seqs.FilterAll` | src/controllers/countryController.js:252-261 | A condition every row satisfies selects the table unchanged. Otherwise strictly fewer rows are selected (`affectedRows` > 0) |
| `Query.SortBy` | src/controllers/countryController.js:189-208 | ORDER BY returns a permutation of its input |
| `Query.SortBySorted` | src/controllers/countryController.js:189-208 | ORDER BY's result is in the order of the sort key. NULL estimates come first ascending and last descending |
| `Query.List` | src/controllers/countryController.js:174-211 | The listing holds exactly the stored rows that pass both truthy filters (region AND currency code), each as often as it is stored. It is ordered by the parsed sort key: an unknown or absent key is name ascending |
| `Query.ListByNameDetermined` | src/controllers/countryController.js:197-204 | With unique names, a listing by name ascending or descending is fully determined: any ordering of the selected rows that respects the key is the one returned |

## Left out

- Summary-image generation after the commit, and `GET /countries/image`. Both
  are canvas drawing and file I/O. An image failure after the commit reaches
  the rollback and 500 path even though the data is committed; that path is not
  modelled.
- `GET /status` reads the metadata row as it is. It has no logic beyond the
  `metadata` field.
- The external API client (axios, timeout, checks on the response shape,
  logging) is modelled only by its `{success, data | error}` result, the
  `Fetch` input.
- `Math.random()` and `NOW()` are inputs. Every NOW() of one refresh is the same
  `now`; MySQL evaluates it per statement, so real timestamps may differ by the
  statement's start time.
- Floating point: rates and estimates are Dafny reals, so IEEE rounding, NaN
  (which is also falsy) and infinities are not modelled.
- MySQL collation is not modelled. The region and currency filters compare
  exactly. Names are ordered by code point. `Lower` lowers only the ASCII
  letters.
- The ordering of rows with equal estimates is left unspecified by SQL. `List`
  states only that such a listing is sorted and a permutation. The model's
  order is one of the allowed ones.
- Source records are taken as well-formed: a name, a non-negative integer
  population, and a code in each currency entry. A record that makes an
  INSERT or UPDATE fail is a failing statement, covered by `failAt`.
- Database errors in `GET /countries` and `GET /countries/:name` (a 500) are not
  modelled. Those reads are functions of the rows.
- Connection pooling, async/await and concurrent overlapping refreshes are not
  modelled. The operations run one at a time.
- The auto-increment `id` is not modelled: a row's position stands for it, and
  rows are appended in id order.
- Progress logging every 50 rows, and the Express wiring (routes, CORS, the
  404/500 handlers), are not modelled.
- Countries.EstimateBounds: stated for a positive rate only. The controller
  accepts a negative rate (it is truthy). It then stores a negative estimate,
  for which the bounds are reversed.
