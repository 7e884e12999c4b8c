# RSS reader entry store — a Dafny model

This project models the core of a small RSS reader back end written in Go:
the **entry store** over the `rss` table, the older store that the web command
still uses, and the driver logic of the web command (the fetch-and-upsert job,
the clean-up job, the Basic-Auth credential check and the handler that marks an
entry viewed).

The table is a sequence of rows in insertion order together with the next value
of its identifier sequence (`Table`). Each SQL statement the Go code runs is a
function from the old table to the new one (`RssTable` for the newer store,
`CmdRoot` for the older one). The repositories are classes holding that table in
fields. Their methods change the fields through those functions and state the
new table exactly. What the statements promise (unique urls, fresh ascending
identifiers, the flags a re-fetch keeps, how many rows a sweep removes, which
row the queue yields) is proved about the functions, as lemmas and as their
`ensures`.

Files and modules:

- `wrappers.dfy` (`Wrappers`): the `Option` type.
- `sql.dfy` (`Sql`): a failure model for prepared statements. `Fault` chooses
  whether the preparation fails, or which execution fails (counted from 0).
  `StoreError` is the error reported, without the driver's detail.
  `Executed` defines that model: how many of `n` planned executions complete
  under a given `Fault`. `Outcome` is the error the batch then returns.
- `rss.dfy` (`Rss`): `RssEntry` and `RssFeed` as the feed connector decodes them.
- `rss_table.dfy` (`RssTable`): the newer table's rows and DTO. It also holds the
  meaning of every statement of `repositories/pg_rss_repository.go`, and the
  lemmas about them.
- `pg_rss_repository.dfy` (`Repositories`): the class `PgRssRepository` of the
  newer store.
- `cmd_root.dfy` (`CmdRoot`): the older table without `saved`, with its
  statements and the class `PgRssRepository` of `cmd/root.go`. The class keeps a
  ghost log (`calls`) of the mutating calls made on it.
- `cmd_serve.dfy` (`CmdServe`): `fetchRss`, `cleanDb`, `validateBasicAuth`, and
  the decision and the store call of `httpChangeViewedState`.

Parameters stand for what the Go code gets from outside:

- `NOW()` is the `now: int` argument of each call.
- Timestamps are integers.
- The feed connector is a function `string -> Option<RssFeed>`.
- `strconv.Atoi` and `strconv.ParseBool` are functions returning `Option`.
- The configured credentials are passed as `Credentials`.
- The hard-coded feed list is passed as `feeds`.
- Which statement fails is chosen by a `Fault` argument.

Where the code differs from the intended design of the system, the model follows
the code:

- `Update` and `UpdateViewedById` report no error when no row has the
  identifier.
- `GetRssFromQueue` returns the zero DTO with no error when the queue is empty,
  rather than a not-found error.
- `cleanDb` only logs. No retention sweep runs, and `DeleteInactiveRssOlderThan`
  has no caller.
- The `PUT /rss/:id` handler reads `viewed` from a query parameter, not from a
  JSON body. It never changes `saved`, and it goes to the older store.

## Model

| member | source | states |
|---|---|---|
| `Sql.Outcome` | repositories/pg_rss_repository.go:104-116 | the error returned: a preparation error exactly when preparation fails, an execution error exactly when a planned execution fails, none otherwise |
| `Sql.ShortfallIsReported` | repositories/pg_rss_repository.go:104-116 | a batch that completes fewer executions than planned always returns an error; the execution error comes back exactly when preparation succeeded and an execution did not complete; an empty batch can fail only at preparation |
| `Sql.ExecutedMonotone` | repositories/pg_rss_repository.go:109-114 | a longer batch never completes fewer executions, and when it gets past `n` executions the first `n` all complete |
| `RssTable.FindUrl` | repositories/pg_rss_repository.go:99 | the conflict check on `url`: finds a row holding the url, or reports none exactly when no row holds it |
| `RssTable.Upsert` | repositories/pg_rss_repository.go:96-102 | one upsert leaves a row with the url, keeps every existing row's id, url, viewed and saved in place, takes a new id exactly when the url was absent, and keeps urls unique and ids fresh and ascending |
| `RssTable.UpsertAbsentUrl` | repositories/pg_rss_repository.go:97-98 | an absent url adds exactly one row with a fresh id, the entry's rank and title, lastFetch = now, viewed and saved false; the existing rows are unchanged |
| `RssTable.UpsertPresentUrl` | repositories/pg_rss_repository.go:99-102 | a present url changes only that row's rank, title and lastFetch, and adds no row |
| `RssTable.UpsertAll` | repositories/pg_rss_repository.go:109-114 | a batch applied entry by entry keeps every earlier row's identity and flags, and keeps the table well formed (unique urls) |
| `RssTable.UpsertAllCovers` | repositories/pg_rss_repository.go:97-102 | after a batch every url of the batch has a row |
| `RssTable.UpsertAllKnownUrls` | repositories/pg_rss_repository.go:99-102 | a batch of known urls adds no row and takes no identifier |
| `RssTable.UpsertBatchTwice` | repositories/pg_rss_repository.go:97-102 | upserting the same batch twice, at any two times, leaves the same rows, ids, urls and flags as upserting it once |
| `RssTable.UpsertAllConcat` | repositories/pg_rss_repository.go:109-114 | upserting `a` then `b` equals upserting `a + b` |
| `RssTable.SetFlags` | repositories/pg_rss_repository.go:120-124 | the flag update keeps the number of rows (its effect is stated by `SetFlagsEffect`) |
| `RssTable.SetFlagsEffect` | repositories/pg_rss_repository.go:120-124 | only rows with the id change, and on them only viewed and saved, set to the given values; the table stays well formed |
| `RssTable.SetFlagsMissingId` | repositories/pg_rss_repository.go:131-136 | an id matching no row leaves the table unchanged |
| `RssTable.CountUnviewed` | repositories/pg_rss_repository.go:56-58 | the count of unviewed rows is at most the number of rows, and is 0 exactly when every row is viewed |
| `RssTable.CountUnviewedIsCardinality` | repositories/pg_rss_repository.go:56-58 | the SQL count equals the number of rows with viewed = false |
| `RssTable.FirstUnviewed` | repositories/pg_rss_repository.go:75-79 | finds an unviewed row with no unviewed row before it, or reports none exactly when every row is viewed |
| `RssTable.FirstUnviewedHasSmallestId` | repositories/pg_rss_repository.go:78-79 | with ascending ids the first unviewed row has the smallest id among unviewed rows |
| `RssTable.Sweep` | repositories/pg_rss_repository.go:140-143 | a row survives the delete exactly when it is not (lastFetch < ts and saved = false); survivors are unchanged |
| `RssTable.SweepKeepsWellFormed` | repositories/pg_rss_repository.go:140-143 | the rows left by the delete still form a well-formed table |
| `RssTable.SweepRemovesStale` | repositories/pg_rss_repository.go:149-154 | the number of rows removed equals the number of rows with lastFetch < ts and saved = false |
| `RssTable.MarkAllViewed` | repositories/pg_rss_repository.go:158-161 | marking all viewed keeps the number of rows (its effect is stated by `MarkAllViewedEffect`) |
| `RssTable.MarkAllViewedEffect` | repositories/pg_rss_repository.go:158-172 | afterwards every row is viewed, no other column changes, no unviewed row is left, and marking again changes nothing |
| `RssTable.RefetchKeepsViewedScenario` | repositories/pg_rss_repository.go:96-124 | insert "a", mark it viewed, re-fetch it with rank 2 and title "A2": same id, new rank and title, still viewed |
| `RssTable.RetentionScenario` | repositories/pg_rss_repository.go:139-154 | of a saved and an unsaved row both older than the threshold, the delete removes only the unsaved one and counts 1 |
| `Repositories.PgRssRepository.constructor` | repositories/pg_rss_repository.go:175-177 | a repository over an existing well-formed table |
| `Repositories.PgRssRepository.GetAll` | repositories/pg_rss_repository.go:36-53 | returns every row exactly once, in table order, with its id, url, rank, title, viewed and saved, and no error |
| `Repositories.PgRssRepository.GetQueueCount` | repositories/pg_rss_repository.go:55-72 | returns the number of rows with viewed = false, and no error |
| `Repositories.PgRssRepository.GetRssFromQueue` | repositories/pg_rss_repository.go:74-93 | returns the unviewed row with the smallest id, or the zero DTO with no error when there is none |
| `Repositories.PgRssRepository.ExecAll` | repositories/pg_rss_repository.go:109-116 | the loop over the entries: with a failing execution `k` inside the batch exactly the first `k` entries are applied and the execution error is returned; otherwise every entry is applied and no error is returned |
| `Repositories.PgRssRepository.Exec` | repositories/pg_rss_repository.go:110 | one successful execution on entry `i` extends the applied prefix from `i` entries to `i + 1` |
| `Repositories.PgRssRepository.SaveOrUpdateAll` | repositories/pg_rss_repository.go:95-117 | the new table is the batch prefix before the first failing execution applied in order; the error is that failure's; a preparation failure changes nothing |
| `Repositories.PgRssRepository.Update` | repositories/pg_rss_repository.go:119-137 | on success viewed and saved of the row with `dto.id` become the DTO's, ignoring its url, rank and title; on failure nothing changes; a missing id is no error |
| `Repositories.PgRssRepository.DeleteInactiveRssOlderThan` | repositories/pg_rss_repository.go:139-155 | on success exactly the stale unsaved rows are removed and their number returned; on failure nothing changes and 0 is returned |
| `Repositories.PgRssRepository.SetAllAsViewed` | repositories/pg_rss_repository.go:157-173 | on success every row becomes viewed, nothing else changes, and the number of previously unviewed rows is returned |
| `Repositories.SetAllAsViewedTwice` | repositories/pg_rss_repository.go:157-173 | a second `SetAllAsViewed` returns 0 and the queue count is then 0 |
| `CmdRoot.FindUrl` | cmd/root.go:169 | the conflict check on `url` in the older table |
| `CmdRoot.Upsert` | cmd/root.go:166-172 | one upsert keeps every existing row's id, url and viewed, takes a new id exactly when the url was absent, and keeps the table well formed |
| `CmdRoot.UpsertAbsentUrl` | cmd/root.go:167-168 | a new url becomes one new row with a fresh id, lastFetch = now and viewed = false; existing rows unchanged |
| `CmdRoot.UpsertPresentUrl` | cmd/root.go:169-172 | an existing url gets only rank, title and lastFetch overwritten, so viewed is preserved |
| `CmdRoot.UpsertAll` | cmd/root.go:179-184 | a batch in order keeps every earlier row's id, url and viewed and keeps the table well formed |
| `CmdRoot.UpsertAllConcat` | cmd/root.go:179-184 | upserting `a` then `b` equals upserting `a + b` |
| `CmdRoot.SetViewed` | cmd/root.go:190-193 | the update keeps the number of rows (its effect is stated by `SetViewedEffect`) |
| `CmdRoot.SetViewedEffect` | cmd/root.go:190-205 | only the row with the id changes, and only its viewed flag; an id matching no row changes nothing; the table stays well formed |
| `CmdRoot.PgRssRepository.constructor` | cmd/root.go:208-210 | a repository over an existing well-formed table, with an empty call log |
| `CmdRoot.PgRssRepository.GetAll` | cmd/root.go:146-163 | returns every row exactly once with its id, url, rank, title and viewed, and no error |
| `CmdRoot.PgRssRepository.ExecAll` | cmd/root.go:179-186 | the loop over the entries: with a failing execution `k` inside the batch exactly the first `k` entries are applied and the execution error is returned; otherwise every entry is applied; nothing is logged |
| `CmdRoot.PgRssRepository.Exec` | cmd/root.go:180 | one successful execution on entry `i` extends the applied prefix from `i` entries to `i + 1` |
| `CmdRoot.PgRssRepository.SaveOrUpdateAll` | cmd/root.go:165-187 | entries up to the first failing execution are applied in order and that error returned; a preparation error leaves the table unchanged; the call is logged |
| `CmdRoot.PgRssRepository.UpdateViewedById` | cmd/root.go:189-206 | on success only the viewed flag of the row with the id changes; a missing id is no error; on failure nothing changes; the call is logged |
| `CmdServe.ValidateBasicAuth` | cmd/serve.go:57-62 | accepts exactly when both user and password equal the configured ones, and never returns an error |
| `CmdServe.FeedOf` | rss/connector.go:11-31 | a failed fetch yields the zero feed, which has no entries; a successful fetch yields the decoded feed |
| `CmdServe.FetchAll` | cmd/serve.go:64-74 | the table after visiting the feeds in order keeps every earlier row's id, url and viewed, and stays well formed |
| `CmdServe.FetchCallsPerFeed` | cmd/serve.go:66-72 | the job calls `SaveOrUpdateAll` once per feed, in list order, with the fetched entries (empty when the fetch failed) |
| `CmdServe.FetchAllIsOneBatch` | cmd/serve.go:66-72 | an upsert error of one feed does not stop the job: its effect is one batch of every applied entry across all feeds |
| `CmdServe.FailedFetchSkipped` | cmd/serve.go:66-72 | a feed whose fetch fails leaves the table as it was, its store call is `SaveOrUpdateAll` of no entries, and the job goes on with the next feed |
| `CmdServe.FailedFetchesChangeNothing` | cmd/serve.go:64-74 | when every fetch fails, the job leaves the table unchanged |
| `CmdServe.FetchAllWithoutFaults` | cmd/serve.go:66-72 | when the store never fails, the job upserts every fetched entry, feed after feed |
| `CmdServe.FetchOne` | cmd/serve.go:67-71 | iteration `i`: the fetched feed (or the zero feed) goes to `SaveOrUpdateAll`, whose error is ignored, so the table and the call log grow from the job's first `i` feeds to its first `i + 1` |
| `CmdServe.FetchRss` | cmd/serve.go:64-74 | the store ends as `FetchAll` of the old table, and the call log grows by one `SaveOrUpdateAll` per feed in order |
| `CmdServe.CleanDb` | cmd/serve.go:76-78 | no store call and no change |
| `CmdServe.Decide` | cmd/serve.go:115-128 | rejects the id exactly when it does not parse; rejects `viewed` exactly when the id parses and `viewed` does not; otherwise the parsed pair |
| `CmdServe.HttpChangeViewedState` | cmd/serve.go:115-133 | a bad id or flag answers 400 with the handler's message and makes no store call; otherwise `UpdateViewedById(id, viewed)` is called exactly once, and the answer is the JSON OK status or the store's error |

## Left out

- Connecting, pinging and closing the database (`Open`, `Close`) are connection
  I/O and are not modelled.
- Read failures are not modelled, so `GetAll`, `GetQueueCount` and
  `GetRssFromQueue` are total. A failing query or row scan is driver behaviour,
  and their error result is always `None` here.
- The error of `RowsAffected` is not modelled. The Postgres driver never reports
  one for these statements.
- `NOW()` is one `now` value for each call. In the database every auto-committed
  execution reads its own clock.
- The identifier sequence is modelled as `nextId`, which moves on only when a row
  is inserted. The id values Postgres hands out may also skip values consumed by
  conflicting inserts. The model keeps only freshness and ascending order.
- Go's 64-bit `int` (ids, ranks, counts, and the `int(rows)` conversion) is
  modelled as an unbounded integer. No value here comes near the bound.
- The table's row order is its insertion order. Postgres does not promise an
  order for `SELECT` without `ORDER BY`, so `GetAll` returns rows in that order
  only in this model.
- Concurrency is not modelled. Scheduled jobs and requests share the store, but
  the model runs one operation at a time.
- The cron schedulers, `StartAsync` and the 30-second start delay are timing and
  background tasks, and are left out.
- The network and XML decoding of `Connector.Fetch` are foreign calls, so Fetch
  is an oracle parameter.
- CmdServe.FetchRss: the fetch oracle is a function of the url, so a url listed
  twice would be fetched with the same result both times. A real network can
  answer differently. The configured feed list holds each url once.
- `strconv.Atoi` and `strconv.ParseBool` are oracle parameters, so the exact
  strings they accept are not modelled.
- Logging is left out.
- The echo framework is left out: HTTP transport, routing, CORS, the BasicAuth
  middleware wiring, `httpCheckAuth`, and `httpGetRss` (which only returns
  `GetAll`). `c.Param` and `c.QueryParam` become string arguments.
- Configuration loading, environment binding and validation are left out, and
  so are the migrations. They are library calls.
- The `XmlName` fields of `RssFeed` and `RssEntry` are decoding artefacts, and
  are left out.
