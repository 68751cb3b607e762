# Homebrew weather reports, in Dafny

A model of the homebrew provider of jupiter (`src/provider/homebrew.rs`).
Weather stations POST readings to `/api/weather_reports` using an API key. Each reading is
a `WeatherReport`: a server-side serial `id`, a random 15-character `oid`, seven optional
metrics (temperature, humidity, percipitation, pm10, pm25, co2, tvoc), a `device_type` and a
`timestamp`. Readings are stored in the Postgres table `weather_reports`. A GET on the same
path returns the latest reading.

The model has five modules:

- `Wrappers` (`wrappers.dfy`): `Option` and `Result`.
- `QueryBuilder` (`query_builder.dfy`): the query text `WeatherReport::select` assembles.
  - `SelectQuery` mirrors the source's four `format!` steps.
  - `Clauses` and `Render` give a clause-level reading of the same text.
  - The lemmas prove the two agree. They also prove the clause order, the clause presence and the `id DESC` default.
  - `NatToString` renders the limit and offset. `DecimalValue` is its inverse.
- `Reports` (`reports.dfy`): the `WeatherReport` record, `WeatherReport::new` and the report the POST handler builds.
  - Metrics are a `map<Metric, V>`. A missing key is `None` (SQL `NULL`).
  - `V` is an opaque value type that stands for `f64`. Nothing computes with metric values.
- `Storage` (`storage.dfy`): the table, in memory.
  - The class `ReportTable` holds the rows in insertion order, plus `nextId`, which stands for the `serial` sequence.
  - Its methods are the SQL statements `save` issues: the existence check (`Lookup`), the skeleton `Insert`, and the per-column `UpdateColumn`. `Save` is proved to equal the specification function `Upsert`.
  - `SelectLatest` is the GET query.
  - The lemmas about `Upsert` state the upsert-by-presence guarantees.
- `Server` (`server.dfy`): the request closure of `Config::init`.
  - `Dispatch` is the auth gate and the routing decision.
  - `Serve` runs one request against a `ReportTable`.
  - Three things come in as parameters: the random `oid`, the clock reading `now`, and the database's `Fault`.

Behaviour that follows the code rather than a cleaner design:

- The API key is compared exactly. A missing or wrong `Authorization` header gets a 404 before the url or the method is looked at.
- Requests to any other url or method get the text `hello world`, not a 404.
- POST ignores what `save` returns. It echoes the constructed report (with `id` 0) even when the store failed part-way.
- POST never takes an `oid` from the client. A fresh one is drawn each time, so the "existing oid" path of `save` is reached only when a drawn oid collides with a stored one.
- GET asks for `ORDER BY timestamp DESC LIMIT 1`, not the `id DESC` default.
- `save` is not atomic. An `UPDATE` that fails stops the remaining columns, and the ones already written stay written (`Fault.UpdateFails`).
- Deliberate deviation: the source indexes `objects[0]` on the GET result and panics on an empty table. The model answers `NoData` instead.

## Model

| member | source | states |
|---|---|---|
| `QueryBuilder.SelectQueryRendersClauses` | src/provider/homebrew.rs:289-318 | The four-step assembly equals the base statement followed by the rendered clause list, each clause being `" " + KEYWORD + " " + argument` |
| `QueryBuilder.ClausesInFixedOrder` | src/provider/homebrew.rs:289-318 | Clauses come in the order WHERE, ORDER BY, LIMIT, OFFSET with strictly increasing rank, so no clause kind appears twice |
| `QueryBuilder.ClausesFollowArguments` | src/provider/homebrew.rs:291-318 | WHERE p, LIMIT n and OFFSET n are present exactly when the matching argument is `Some(p)`/`Some(n)`. There is exactly one ORDER BY, with the given order or `id DESC` when none is given |
| `QueryBuilder.SelectQuery` | src/provider/homebrew.rs:289-318 | Every query is longer than the base statement and begins with it, since an ORDER BY clause is always appended |
| `QueryBuilder.SelectQueryStartsWithBase` | src/provider/homebrew.rs:289 | Every query begins with `SELECT * FROM weather_reports` |
| `QueryBuilder.LimitOneQuery` | src/provider/homebrew.rs:299-312 | limit 1 with no predicate, order or offset gives `SELECT * FROM weather_reports ORDER BY id DESC LIMIT 1` |
| `QueryBuilder.LimitIsLastClause` | src/provider/homebrew.rs:307-312 | With a limit and no offset the query ends in `" LIMIT " + digits`, and those digits read back as the limit |
| `QueryBuilder.NatToString` | src/provider/homebrew.rs:309 | A limit or offset renders as a non-empty string of decimal digits with no leading zero |
| `QueryBuilder.DecimalValueOfNatToString` | src/provider/homebrew.rs:309 | Reading the rendered digits back yields the number: the rendering round-trips |
| `QueryBuilder.NatToStringInjective` | src/provider/homebrew.rs:307-318 | Different limits or offsets render differently |
| `Reports.Position` | src/provider/homebrew.rs:225-279 | Every metric has one place in the column order `save` writes in |
| `Reports.New` | src/provider/homebrew.rs:151-167 | A new report has id 0, the drawn oid, the clock's timestamp, device type "other" and every metric None |
| `Reports.FromForm` | src/provider/homebrew.rs:72-80 | The POST report agrees with `new`'s report in every field except the metrics and the device type, which are the form's |
| `Reports.FromFormTakesInput` | src/provider/homebrew.rs:72-80 | The POST report keeps new's id 0, its 15-character alphanumeric oid and its timestamp, and takes every metric and the device type from the form, replacing "other" |
| `Reports.GeneratedOidHasNoQuote` | src/provider/homebrew.rs:152 | A drawn oid contains no `'`, so the interpolated `oid = '<oid>'` filter cannot leave its literal |
| `Storage.OidLookupQuery` | src/provider/homebrew.rs:207-215 | The existence check asks `SELECT * FROM weather_reports WHERE oid = '<oid>' ORDER BY id DESC` |
| `Storage.IndexOf` | src/provider/homebrew.rs:207-217 | Finds the first row holding the oid, or reports that no row holds it |
| `Storage.ReportTable.Lookup` | src/provider/homebrew.rs:207-217 | Scanning the rows finds exactly the row `IndexOf` names, or none |
| `Storage.ReportTable.Insert` | src/provider/homebrew.rs:217-223 | Called only for an oid no row holds. Appends a row with the next serial id, the oid, device type and timestamp and no metrics, advances the serial, and keeps oids unique and ids below the serial |
| `Storage.ReportTable.UpdateColumn` | src/provider/homebrew.rs:225-231 | Sets one metric column on every row with the oid and leaves everything else as it was. Keeps the table's constraints |
| `Storage.ReportTable.WriteColumns` | src/provider/homebrew.rs:225-279 | Leaves the rows as one UPDATE of the written metrics on the report's oid. Keeps the serial. Reports the failing column exactly when a present column's UPDATE fails. Keeps the table's constraints |
| `Storage.ReportTable.Save` | src/provider/homebrew.rs:192-282 | Keeps the table's constraints. The new table and the result are exactly those of `Upsert`, including a connection failure and an UPDATE failing part-way |
| `Storage.ReportTable.constructor` | src/provider/homebrew.rs:173-174 | A new table is empty and its serial starts at 1 |
| `Storage.ReportTable.SelectLatest` | src/provider/homebrew.rs:85 | Returns None exactly on an empty table, otherwise a stored row whose timestamp is the greatest |
| `Storage.Upsert` | src/provider/homebrew.rs:192-282 | save succeeds exactly when no fault fires and then returns the report. The error names the failing step: the connection or the column whose UPDATE failed. A failed connection leaves the table unchanged. Otherwise the row count grows by one exactly when the oid was not stored |
| `Storage.WrittenColumns` | src/provider/homebrew.rs:225-279 | Without a fault every present metric is written. When the UPDATE of a present column fails, exactly the present columns before it are written. Written values are the report's |
| `Storage.UpsertKeepsValid` | src/provider/homebrew.rs:173-185 | save keeps oids unique and ids increasing and below the serial's next value |
| `Storage.UpsertConnectFailure` | src/provider/homebrew.rs:204 | A failed connection returns an error and changes nothing |
| `Storage.UpsertNewOid` | src/provider/homebrew.rs:217-279 | On a new oid, exactly one row is appended, with the next id and the report's oid, device type and timestamp. Its metrics are exactly the report's present ones when nothing fails, and None elsewhere |
| `Storage.UpsertExistingOid` | src/provider/homebrew.rs:217-279 | On a stored oid nothing is inserted. The row count and serial stay the same, the row keeps id, oid, device type and timestamp and takes the written metrics over its own, and all other rows are unchanged |
| `Storage.UpsertByPresence` | src/provider/homebrew.rs:225-279 | On the report's row every written metric takes the report's value and every other column keeps its earlier value (None never clears). Rows with another oid are unchanged |
| `Storage.DisjointSavesUnion` | src/provider/homebrew.rs:225-279 | Two saves of one oid with disjoint metrics leave both sets on the row. On a new oid the row holds exactly their union and the first save's device type and timestamp |
| `Storage.LatestQuery` | src/provider/homebrew.rs:85 | The GET handler's query is the base statement followed by `ORDER BY timestamp DESC LIMIT 1` |
| `Storage.SavedReportIsLatest` | src/provider/homebrew.rs:81-86 | A report saved under a new oid with a timestamp later than every stored one becomes the only answer to the latest query, with its oid, device type, timestamp and written metrics |
| `Server.Dispatch` | src/provider/homebrew.rs:47-91 | Denied exactly when the Authorization header is missing or differs from the key. POST and GET on `/api/weather_reports` route to ingest and retrieve only when authorised. Everything else falls through |
| `Server.DeniedLooksAlike` | src/provider/homebrew.rs:47-55 | Any two unauthorised requests take the same branch, whatever their url, method or body |
| `Server.Serve` | src/provider/homebrew.rs:47-93 | The oid is a drawn 15-character alphanumeric string. Denied gives 404 and an untouched table. An unparsable POST form gives 400 and an untouched table. POST saves the report built from the form and echoes it whatever save returned. GET leaves the table alone and answers a latest row, or NoData when empty. Other requests get "hello world" with the table untouched |

## Left out

- TLS connector construction with certificate verification turned off: foreign OpenSSL calls.
- Postgres connection strings, `Client::connect` and the spawned connection task: network I/O. The table is an in-memory `ReportTable`. A failed connection in `save` is the injected `Fault.ConnectFails`.
- `build_tables`, `sql_build_statement` and `migrations`: schema bootstrapping. The model keeps only two facts from the schema, as the table invariant `ValidTable`: `oid` is UNIQUE and `id` is a serial.
- `thread::spawn` and `rouille::start_server`: threading and listener plumbing. Concurrent requests and the interleaving of their column writes are not modelled; the model is single-threaded.
- `PostgresServer::new`: loads configuration from environment variables.
- The random oid (`thread_rng` with `Alphanumeric`) and `SystemTime::now`: both are parameters of `Serve`. The model does not guarantee that a drawn oid is new to the table. A collision takes the existing-oid path of `save`, as it would in the source.
- `post_input!`/`try_or_400!` form parsing and `Response::json` serialisation: library macros. The parsed form is a `Form` value, a parse failure is `body == None` and gives `BadRequest`, and a JSON response is `Json(report)`.
- `from_row`: a column-by-column copy by the Postgres library. Stored rows are already `WeatherReport` values.
- The `f64` metric values: opaque type parameter `V`, no floating point.
- Executing SQL text: the existence check, the insert, the column updates and the latest-row query are methods of `ReportTable`. Their query text is stated separately (`OidLookupQuery`, `LatestQuery`), and no SQL is parsed.
- The `.unwrap()` on the existence check, on the skeleton insert, and on the GET query (homebrew.rs:215, 222, 85) panics the request thread when the database fails. These panics are not modelled: in the model those three steps always succeed, and only the connection and the column `UPDATE`s can fail.
- `Storage.ReportTable.Insert`: inserting an oid that is already stored violates the UNIQUE column and panics in `.unwrap()` (homebrew.rs:175, 222). `save` only inserts after the existence check finds no row, so `Insert` requires the oid to be absent and that failing case is not modelled.
- `Storage.ReportTable.SelectLatest`: when several rows share the greatest timestamp, Postgres may return any of them. The contract promises only some row of greatest timestamp.
- Integer widths: `id` is an `i32` serial and `timestamp` is `as_secs() as i64`. The model uses unbounded integers, so serial exhaustion and the `u64` to `i64` cast are not modelled.
- `Config::init`'s `build_tables` call and `WeatherReport::sql_table_name`: unused by the request path.
