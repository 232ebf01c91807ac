# Country currency service — Dafny model

This project models the core of a small NestJS service. The service pulls a country
directory from restcountries.com and a USD exchange-rate table from open.er-api.com,
and merges them into a `country` table. Each row gets an exchange rate and a synthetic
"estimated GDP". Over that table the service lists, looks up, deletes and reports status.

The model has eight modules:

- `Wrappers` (`wrappers.dfy`) — the `Option` and `Result` datatypes the other modules use.
- `Countries` (`countries.dfy`) — the entities. `Entry` is a directory item, `CountryData`
  is the CreateCountryDto, `Country` is a stored row and `HttpError` is a thrown HttpException.
  JavaScript's `undefined` and `null` are kept apart by `Field<T>`. This matters because
  Prisma's documented rule is that `undefined` in update data leaves a column as it is,
  while `null` clears it; on create both store null, assuming the nullable columns have no default (`Countries.CreateRule`, `Countries.UpdateRule`).
- `Store` (`store.dfy`) — the Prisma table as a class `CountryStore` over a `seq` of rows
  and an autoincrement counter. It has the five operations the service uses: first row with an
  exactly equal name, update by id, create under a fresh id, delete by id, and count.
- `Refresh` (`refresh.dfy`) — turning one directory entry into write data, one upsert by
  exact name, a whole run of upserts (`Merge`), and the mapping of caught errors to HTTP errors.
- `Ordering` (`ordering.dfy`) — the six orders `findAll` can request, and a sort standing in
  for the store's ORDER BY.
- `QueryDto` (`query.dfy`) — the CountryQueryDto validation rules.
- `Listing` (`listing.dfy`) — building `where` and `orderBy` from a query, and what
  `findMany` returns for them.
- `Service` (`service.dfy`) — the class `CountriesService`. `RefreshCountries` is a loop over
  the directory, proved equal to `Merge` of the entries handled before the first one that
  throws. `Remove` changes the table; `FindAll`, `FindOne` and `GetStatus` only read it.

Parameters stand in for the outside world. The two fetch results are inputs (`Fetch<T>`).
So is the clock (`now`). `Math.random()` becomes `multiplier: nat -> real`, the value drawn
for the i-th entry.

Three behaviours of the code are easy to misread:

- The name lookup is exact, case-sensitive equality. The comment at
  `src/countries/countries.service.ts:52` says "case-insensitive", but the query at :53-59 uses `equals`.
- An update is not a full field replacement. The update data at :63-66 leaves `exchange_rate`,
  `estimated_gdp` and any missing `capital`/`region`/`flag` as `undefined`. Prisma then keeps the
  stored values. So a country that loses its currency has its `currency_code` cleared but keeps
  its old rate and GDP (`Refresh.UpdateWithoutCurrency`). The two still stay paired
  (`Refresh.MergeRateWithGdp`).
- A refresh is not all-or-nothing. Suppose the rate response has no `rates` member. Then
  reading `exchangeRates[code]` throws a TypeError at the first entry with a truthy code. That
  is a 500, and the upserts already made stay (`Refresh.FirstThrow`).

## Model

| member | source | states |
|---|---|---|
| Countries.OnCreate | src/countries/countries.service.ts:69-71 | the column `create` stores: the value when the data sets one, null when the field is null or undefined |
| Countries.OnUpdate | src/countries/countries.service.ts:63-66 | the column `update` leaves: the value when the data sets one, null when the field is null, the old column when the field is undefined |
| Countries.Created | src/countries/countries.service.ts:68-71 | a created row gets the given fresh id, the written name and population and the refresh time; each of capital, region, flag, currency code, rate and GDP holds the data's value when set and is null otherwise |
| Countries.Updated | src/countries/countries.service.ts:62-66 | an update keeps the row's id and takes the written name and population and the refresh time; each of capital, region, flag, currency code, rate and GDP takes the data's value when set, is cleared when the data has null, and keeps its old value when the data leaves it undefined |
| Countries.WriteKeepsRateWithGdp | src/countries/countries.service.ts:32-39 | writing data whose rate and GDP are of the same kind keeps a row's rate and GDP present together, on create and on update |
| Store.FirstByName | src/countries/countries.service.ts:53-59 | the result is the first position whose name equals the given one exactly, and is absent exactly when no row has that name |
| Store.IndexOfId | src/countries/countries.service.ts:63-66 | the result is the first position holding the id, or absent when no row has it |
| Store.IdLeadsBack | src/countries/countries.service.ts:63-66 | with distinct ids, updating by the id of the matched row addresses that same row |
| Store.Without | src/countries/countries.service.ts:179-181 | deleting position k keeps the rows before k and shifts those after it down by one |
| Store.CountryStore.constructor | src/countries/countries.service.ts:69-71 | a new table is empty and valid; the counter starting at 1 is an assumption about the database schema, which is not part of this model |
| Store.CountryStore.FindFirstByName | src/countries/countries.service.ts:145-151 | returns a row of the table with exactly that name, the first one, and nothing exactly when no row has the name |
| Store.CountryStore.UpdateById | src/countries/countries.service.ts:63-66 | rewrites only the row with that id and keeps the ids fresh; without such a row nothing changes |
| Store.CountryStore.Create | src/countries/countries.service.ts:69-71 | appends one row under the next id, which no existing row has, and advances the counter |
| Store.CountryStore.DeleteById | src/countries/countries.service.ts:179-181 | removes exactly the row with that id; without such a row nothing changes |
| Refresh.HasRate | src/countries/countries.service.ts:35 | the condition `currencyCode && exchangeRates[currencyCode]`: holds only for a non-empty code found in a present table with a non-zero rate; a falsy code never reads the table |
| Refresh.Throws | src/countries/countries.service.ts:35 | reading the rate of a truthy code from a missing table throws: never with a present table or a falsy code, and a throwing entry gets no rate |
| Refresh.PrepareAll | src/countries/countries.service.ts:27-50 | one write data item per directory entry, in order, each with its entry's name and population |
| Refresh.CurrencyCode | src/countries/countries.service.ts:28-30 | the code of the first currency when the list is present and non-empty, and null otherwise |
| Refresh.Prepare | src/countries/countries.service.ts:28-50 | the code is `currencies[0].code` for a non-empty list, else null; rate and GDP are both set exactly when the code is a non-empty string with a non-zero rate in the table, the rate is that table value, and otherwise both are undefined |
| Refresh.FirstThrow | src/countries/countries.service.ts:35 | the position of the first entry with a truthy code while the rate table is missing, or the directory's length when there is none |
| Refresh.Upsert | src/countries/countries.service.ts:52-72 | afterwards a row with the written name exists, and the table grows by one row exactly when no row had that name |
| Refresh.Merge | src/countries/countries.service.ts:27-75 | the upserts of the written data in directory order; the table grows by at most one row per item, and the counter advances by exactly the number of rows created |
| Refresh.UpsertTouchesFirstMatch | src/countries/countries.service.ts:61-66 | when a row matches, only the first exact-name match is rewritten, keeping its id and name; the counter and every other row are unchanged |
| Refresh.UpsertCreatesOnlyNew | src/countries/countries.service.ts:67-71 | when no row has the name, the new row is appended under the counter's id and the counter advances |
| Refresh.UpsertNames | src/countries/countries.service.ts:52-72 | one upsert adds exactly the written name to the table's names and loses none |
| Refresh.UpsertIdsFresh | src/countries/countries.service.ts:52-72 | one upsert keeps ids distinct and below the counter |
| Refresh.UpsertDistinctNames | src/countries/countries.service.ts:52-72 | one upsert keeps names distinct |
| Refresh.MergeNames | src/countries/countries.service.ts:27-75 | after a refresh the table's names are the old names plus the directory's names |
| Refresh.MergeIdsFresh | src/countries/countries.service.ts:27-75 | a refresh keeps ids distinct and below the counter |
| Refresh.MergeDistinctNames | src/countries/countries.service.ts:27-75 | names distinct before a refresh stay distinct after it, so each directory name ends up in exactly one row |
| Refresh.MergeKeepsOldRows | src/countries/countries.service.ts:27-75 | a refresh never deletes: old rows keep position, id and name, and a row whose name is not in the directory is unchanged |
| Refresh.MergeStamps | src/countries/countries.service.ts:27-75 | on a table with distinct names, every row named in the directory carries the refresh's timestamp afterwards |
| Refresh.MergeRateWithGdp | src/countries/countries.service.ts:32-72 | if every row has rate and GDP present together before a refresh, that still holds after it |
| Refresh.PreparedRateWithGdp | src/countries/countries.service.ts:32-39 | all data a refresh writes has rate and GDP of the same kind |
| Refresh.MergeSize | src/countries/countries.service.ts:52-72 | on a table with distinct names, a refresh leaves one row per distinct name among the old rows and the directory, so duplicate directory entries never duplicate rows |
| Refresh.MergeKnownNamesKeepsSize | src/countries/countries.service.ts:52-72 | upserts whose names all already occur in the table create no row, whatever duplicates the table holds |
| Refresh.RerunKeepsCount | src/countries/countries.service.ts:52-72 | re-running a refresh with the same directory names adds no rows, on any table |
| Refresh.UpsertStamps | src/countries/countries.service.ts:61-71 | the row an upsert writes, updated or created, carries the written name and the upsert's timestamp |
| Refresh.UpdateWithoutCurrency | src/countries/countries.service.ts:28-39 | updating with an entry whose currency list is missing or empty clears the row's currency code but keeps its old rate and GDP |
| Refresh.UpdateWithRate | src/countries/countries.service.ts:35-38 | updating with an entry whose code has a rate stores that code and the table's rate, and a GDP |
| Refresh.Includes | src/countries/countries.service.ts:89 | `s.includes(sub)`: holds exactly when `sub` occurs in `s` at some position |
| Refresh.Classify | src/countries/countries.service.ts:84-97 | an axios error gives 503 and anything else gives 500 `{error: 'Internal server error'}` with no details |
| Refresh.CountriesUrlNamesProvider | src/countries/countries.service.ts:18 | the directory URL contains `restcountries` |
| Refresh.RatesUrlDoesNotNameProvider | src/countries/countries.service.ts:22 | the rate URL does not contain `restcountries` |
| Refresh.CountriesFetchFailure | src/countries/countries.service.ts:85-92 | a failed directory fetch is a 503 whose details name restcountries.com |
| Refresh.RatesFetchFailure | src/countries/countries.service.ts:85-92 | a failed rate fetch is a 503 whose details name open.er-api.com |
| Ordering.LeTotal | src/countries/countries.service.ts:114-133 | any two rows are comparable under each of the six orders |
| Ordering.LeTransitive | src/countries/countries.service.ts:114-133 | each of the six orders is transitive |
| Ordering.Insert | src/countries/countries.service.ts:136-139 | inserting into a sorted sequence keeps it sorted and adds exactly that element |
| Ordering.Sort | src/countries/countries.service.ts:136-139 | the result is sorted by the field and direction, for every pair of positions, and is a permutation of the input |
| QueryDto.Validate | src/countries/dto/query.dto.ts:4-17 | a query is accepted exactly when each parameter is absent or a single string and `sort`, if present, is one of the six allowed values; a refused query is a 400; an accepted one carries the same strings |
| QueryDto.SortIsOptional | src/countries/dto/query.dto.ts:13-16 | a query without `sort` is valid |
| QueryDto.RegionAndCurrencyAreOptional | src/countries/dto/query.dto.ts:5-11 | `region` and `currency` may both be absent with any allowed `sort` |
| QueryDto.SortOutsideListRefused | src/countries/dto/query.dto.ts:15 | a `sort` outside the allow-list, the empty string included, is refused with 400 |
| Listing.BuildWhere | src/countries/countries.service.ts:102-110 | a filter is set exactly when its query parameter is a non-empty string, and then equals it |
| Listing.Filter | src/countries/countries.service.ts:136-139 | each row is kept, as often as it occurs, exactly when it matches every set filter |
| Listing.BuildOrderBy | src/countries/countries.service.ts:112-134 | `orderBy` is non-empty exactly when `sort` is one of the six allowed values, and then the field and direction read back as that value |
| Listing.OrderNamesRoundTrip | src/countries/countries.service.ts:114-133 | each of the six orders has an allowed name that the switch maps back to it |
| Listing.FindMany | src/countries/countries.service.ts:136-139 | what `findMany({where, orderBy})` returns: a permutation of the matching rows, sorted for a non-empty `orderBy`, in store order otherwise |
| Listing.ValidatedSortOrders | src/countries/dto/query.dto.ts:15 | after validation, a present `sort` always reaches a case of the `findAll` switch, so `orderBy` is non-empty |
| Service.Latest | src/countries/countries.service.ts:188-191 | the result is the largest `last_refreshed_at` among the rows |
| Service.RefreshedStatusNotEarlier | src/countries/countries.service.ts:186-197 | after a refresh of a non-empty directory, on any table, the latest timestamp is no earlier than the refresh's |
| Service.RemovedNameGone | src/countries/countries.service.ts:163-184 | after a delete from a table with distinct names, the name is no longer found and names stay distinct |
| Service.CountriesService.constructor | src/countries/countries.service.ts:12 | the service works on the injected table |
| Service.CountriesService.RefreshCountries | src/countries/countries.service.ts:14-99 | a failed fetch is a 503 naming that provider, with nothing written; otherwise the table becomes the upserts of the entries before the first throwing one, the result reports the directory's full length, duplicates included, or is a 500 when an entry throws |
| Service.CountriesService.UpsertByName | src/countries/countries.service.ts:52-72 | one loop pass changes the table exactly as one upsert by exact name |
| Service.CountriesService.FindAll | src/countries/countries.service.ts:101-142 | the result holds exactly the rows matching every set filter, as a permutation of them; a recognised sort orders it by that field and direction; otherwise it is in store order |
| Service.CountriesService.FindOne | src/countries/countries.service.ts:144-161 | succeeds exactly when some row has exactly that name, returning such a row, and otherwise fails with 404 |
| Service.CountriesService.Remove | src/countries/countries.service.ts:163-184 | without an exact-name match, 404 with nothing changed; otherwise only the first match is removed and the count drops by one |
| Service.CountriesService.GetStatus | src/countries/countries.service.ts:186-197 | `total_countries` is the row count; `last_refreshed_at` is the largest row timestamp, or `now` for an empty table |

## Left out

- Upstream fetches (axios, network I/O): `RefreshCountries` takes each fetch's result as a parameter.
- A directory response that is not an array is not represented: the model types the directory as a sequence of entries. Null, a number or a plain object makes the `for` loop throw (500). A string, which is what axios returns for a non-JSON body, is iterated character by character: each character has no name, so `findFirst` runs with `equals: undefined`, which Prisma treats as no filter.
- Refresh.Prepare: states only that `estimated_gdp` is present, not its value. The source's value uses `Math.random()` and IEEE floating point; the model computes it with exact reals from a supplied multiplier.
- Refresh.HasRate uses a plain map lookup. So a code such as `constructor`, which JavaScript finds on the object's prototype, is not found in the model.
- Directory items and the rate response are assumed well-formed. Some malformed upstream data throws a TypeError, a 500 the model cannot produce. A rate response whose `data` is null throws at `src/countries/countries.service.ts:23`, before any write and even for an empty directory. A null directory item or a null `currencies[0]` throws at :28-29. An item without `name` reaches `findFirst` with `equals: undefined`, which Prisma treats as no filter.
- Persistence failures (a Prisma call that throws) are not modelled as errors. The only 500 the model produces is the TypeError of a missing rate table. `UpdateById` and `DeleteById` return `false` for a missing id, but the service only calls them with an id it has just found.
- Prisma internals: the unseen schema, unique constraints and `@updatedAt`. Every write of one refresh uses the single `now` parameter. Names compare by exact character equality and order by code point. The collation of a real database is not modelled.
- Ordering.GdpLe: a null GDP sorts after every number when ascending, and before every number when descending. This is PostgreSQL's default; the real database is not known. Rows with equal keys come out in the order the insertion sort gives.
- `generateSummaryImage` and `getSummaryImage` (filesystem, HTML templating, headless Chrome, `toLocaleString`). The refresh calls `generateSummaryImage` after the loop; it catches its own failures and only reads the table, so leaving it out does not change the refresh's result or table.
- Controllers and module wiring (`countries.controller.ts`, `status.controller.ts`, `app.module.ts`, `countries.module.ts`). These re-throw HttpException or wrap other errors as 500, and set response headers. `test-api.js` is a live-server smoke script.
- `findFirst`, and `findMany` without `orderBy`, return rows in an order the database does not guarantee. The model takes it to be its store order (insertion order): "the first" match of `findFirst`, and the `Filter` order that `Listing.FindMany` and `CountriesService.FindAll` promise without an `orderBy`.
- Concurrency between simultaneous refreshes: each service call is modelled as running alone.
- Store.CountryStore.Count has no row: it only returns the number of rows.
