# Buienradar weather-station store, modelled in Dafny

The program fetches Buienradar's JSON feed, turns its list of station
measurements into rows for two SQLite tables (`weatherStations` and
`weatherStationMeasurements`), wipes the tables and fills them with the new
rows, and then answers five fixed questions over them: the highest
temperature, the average temperature, the largest gap between felt and actual
temperature, the stations in the North Sea, and a latest-measurement-per-station
table that feeds a bar chart.

This project models that cycle (`CheckWeather` in `main.py`) and the query
helpers:

- `wrappers.dfy` (`Wrappers`): `Option`, for JSON keys read with `.get` and for SQL NULL.
- `rows.dfy` (`Rows`): the feed's entries, the two row types, the joined row, the
  primary-key columns, and `FirstRepeat`, the row where a row-by-row insert into an
  empty table hits a duplicate key.
- `translation.dfy` (`Translation`): the loop that builds the two row lists in step.
- `text.dfy` (`Text`): Python's string order (for timestamps) and SQLite's
  `LIKE '%marker%'`, which ignores the case of ASCII letters.
- `queries.dfy` (`Queries`): the join and the four `find*` questions.
- `chart.dfy` (`Chart`): the pandas steps before the chart is drawn.
- `store.dfy` (`Store`): the database as a class with the connection's view and the
  committed view of both tables, the wipe, the two `executemany` inserts, commit,
  rollback, and `CheckWeather` itself.
- `examples.dfy` (`Examples`): the answers on a few small snapshots.

Temperatures are Dafny `real`s, not floating-point numbers. The HTTP response is a
parameter of `CheckWeather`: either the request raised, or there is a status code and
the decoded JSON (or nothing, when decoding raised).

## Behaviour worth knowing

The model follows `main.py`. In these places the code does not do what one might
assume:

- A cycle that fails after the file is opened (a status other than 200, a duplicate
  station id, an empty join) leaves the tables empty; a failed request or JSON
  decoding leaves them as they were. The wipe runs, and is committed by
  `executescript`, before `data` is used. With a status other than 200, `data` was
  never bound, so line 70 raises after the wipe.
- A duplicate `stationid` in one snapshot is rejected, not overwritten. The plain
  `INSERT` into an `INTEGER PRIMARY KEY` column raises an IntegrityError, the commit at
  line 120 is skipped, and the pending inserts are lost. The wipe has already been
  committed, so the tables end up empty.
- Measurements are inserted before stations. Foreign keys are never switched on (no
  `PRAGMA foreign_keys`), so this order does no harm.
- The region filter ignores case. SQLite's `LIKE` folds ASCII letters, so
  "NOORDZEE" matches as well as "Noordzee".
- A snapshot whose join is empty makes the cycle fail. This happens with no entries,
  or when no entry has a `stationid`. `fetchone()` then returns nothing, `results[1]`
  raises at line 156, and again nothing is committed after the wipe.
- The highest-temperature query compares against the maximum of the whole
  measurements table, not of the joined rows.

Tie rules the source leaves open are fixed here as follows:
- Largest gap: the first joined row, in join order, with the largest gap. The join is
  measurement-major: each measurement row's matching stations follow those of the
  rows before it (`Queries.JoinAppend`). A NULL
  gap ranks below every number, as in SQLite's `ORDER BY ... DESC`.
- Latest measurement of a station: the greatest timestamp. A missing timestamp sorts
  after every present one, as pandas' `na_position='last'` places it. Among equal
  timestamps the later row of the table wins.
- Chart order: rows are sorted by temperature, highest first, with a missing
  temperature last. Rows with equal temperatures may come in either order.

## Model

| member | source | states |
|---|---|---|
| `Translation.Translate` | main.py:68-95 | one measurement row and one station row per entry, in input order; measurement `i` has id `i`; both rows of entry `i` carry its `stationid`; the lists equal `MeasurementRows`/`StationRows` of the entries |
| `Translation.Entries` | main.py:70 | the entry list behind `data.get("actual", {}).get("stationmeasurements", [])`; definition only, its property is `Translation.MissingKeysGiveEmptySnapshot` |
| `Translation.MeasurementOf` | main.py:74-86 | the measurement tuple of one entry, field for field; definition only, used by `Translation.Translate`'s contract |
| `Translation.StationOf` | main.py:88-94 | the station tuple of one entry, with the feed's `lon` in the `long` column; definition only, used by `Translation.Translate`'s contract |
| `Translation.MissingKeysGiveEmptySnapshot` | main.py:70 | a feed lacking `actual` or `stationmeasurements` gives no rows at all |
| `Translation.MeasurementIdsUnique` | main.py:71-95 | measurement ids are 0..n-1 in input order, so the measurements' primary key never clashes within a snapshot |
| `Translation.SnapshotIsReferentiallyClosed` | main.py:74-94 | measurement `i` and station `i` share the entry's `stationid`, so every measurement with a station id refers to a station row of the same snapshot |
| `Rows.FirstRepeat` | main.py:35 | finds no repeat exactly when the present keys are unique; otherwise returns the first row whose key occurs earlier, with all rows before it unique |
| `Rows.FirstRepeatAt` | main.py:102-105 | a clash at `k` after a duplicate-free prefix is the first repeat, so the failing insert row is determined by the input |
| `Rows.UniqueAppend` | main.py:35 | appending a row whose key is missing or new keeps the primary key intact |
| `Text.StrLeTotal` | main.py:172 | the timestamp order (Python string comparison) is total |
| `Text.StrLeTransitive` | main.py:172 | the timestamp order is transitive |
| `Text.StrLeAntisymmetric` | main.py:172 | the timestamp order is antisymmetric |
| `Text.FoldAscii` | main.py:161 | LIKE's case folding; definition only, its meaning is `Text.FoldAsciiMatches` |
| `Text.FoldAsciiMatches` | main.py:161 | two characters fold alike exactly when they are equal or are the two cases of one ASCII letter; no folded character is an ASCII capital |
| `Text.PrefixFoldedOccurs` | main.py:161 | the prefix test holds exactly when the marker occurs at position 0, ignoring ASCII case |
| `Text.LikeContainsOccurs` | main.py:161 | `text LIKE '%pat%'` holds exactly when `pat` occurs somewhere in `text`, ignoring ASCII case |
| `Queries.Matches` | main.py:131 | the stations one measurement joins with: exactly the station rows with its non-NULL `stationid` |
| `Queries.Join` | main.py:129-131 | a row is in the inner join exactly when its measurement and station are in the tables and share a non-NULL `stationid` |
| `Queries.JoinEmpty` | main.py:129-131 | the join is empty exactly when no measurement shares a non-NULL `stationid` with a station |
| `Queries.JoinAppend` | main.py:129-131 | the join is measurement-major: adding a measurement row appends exactly its matching stations at the end |
| `Queries.MaxTemperature` | main.py:132 | `MAX(temperature)` is NULL exactly when no temperature is present; otherwise it is a present temperature and at least every present one |
| `Queries.WithTemperature` | main.py:132 | keeps exactly the joined rows with the given temperature |
| `Queries.HighestTemperature` | main.py:128-135 | a joined row is returned exactly when its temperature is present and at least every temperature in the table, ties included; no rows when no temperature is present |
| `Queries.TemperatureCount` | main.py:142 | the number of non-NULL temperatures is 0 exactly when all are NULL |
| `Queries.AverageTemperature` | main.py:141-145 | `AVG(temperature)` is NULL, not 0, exactly when no temperature is present; otherwise it times the count gives the sum of the present temperatures |
| `Queries.SumBetween` | main.py:142 | bounds on every present temperature bound their sum by the count times the bounds |
| `Queries.AverageBetween` | main.py:141-145 | the average lies within any bounds of the present temperatures |
| `Queries.Gap` | main.py:150 | `ABS(feeltemperature - temperature)` is NULL exactly when either operand is NULL; otherwise it is non-negative and equals one of the two differences |
| `Queries.GapLe` | main.py:153 | the order of `ORDER BY temp_diff`, NULL lowest; definition only, its properties are `Queries.GapLeTotal` and `Queries.GapLeTransitive` |
| `Queries.GapLeTotal` | main.py:153 | any two gaps are ordered |
| `Queries.GapLeTransitive` | main.py:153 | the gap order is transitive |
| `Queries.BiggestGap` | main.py:149-155 | no row exactly when the join is empty; otherwise a joined row whose gap is at least every other gap (NULL gaps lowest), the first such row in join order |
| `Queries.BiggestDiffFeelActual` | main.py:147-156 | no row exactly when no measurement shares a `stationid` with a station (the case where `results[1]` raises); otherwise a measurement and station of the tables with the same non-NULL `stationid`, with a gap at least every joined row's |
| `Queries.InNorthSea` | main.py:161 | `regio LIKE '%Noordzee%'`; definition only, its meaning is `Queries.InNorthSeaOccurs` |
| `Queries.InNorthSeaOccurs` | main.py:161 | a station is in the North Sea exactly when its region is present and contains "Noordzee", ignoring ASCII case |
| `Queries.StationsInNorthSea` | main.py:160-163 | a station is returned exactly when it is in the table and its region contains "Noordzee", ignoring ASCII case; a NULL region never matches |
| `Chart.TsLeTotal` | main.py:172 | the order used to sort timestamps, missing ones last, is total |
| `Chart.TsLeTransitive` | main.py:172 | that order is transitive |
| `Chart.TsLe` | main.py:172 | the order of `sort_values(by="timestamp")`, missing last; definition only, its properties are `Chart.TsLeTotal` and `Chart.TsLeTransitive` |
| `Chart.LatestOf` | main.py:172 | a station's group is empty exactly when no measurement has its id; otherwise the kept row is one of that station's measurements |
| `Chart.LatestOfIsLatest` | main.py:172 | the kept row has the greatest timestamp of its group, and no later row of the group has a timestamp as great |
| `Chart.LatestRows` | main.py:172-173 | every merged row pairs a station with its latest measurement, and every station row with a measurement gets its row |
| `Chart.LatestRowsDistinct` | main.py:172-173 | with station ids unique, the merge yields at most one row per station |
| `Chart.DistinctCons` | main.py:172-173 | a row in front of rows about other stations keeps the rows one per station, and conversely |
| `Chart.SortedCons` | main.py:174 | a row that may precede every row of a sorted list keeps it sorted when put in front |
| `Chart.TempBefore` | main.py:174 | the order of `sort_values(by="temperature", ascending=False)`, missing last; definition only, used by `Chart.SortByTemperatureDesc`'s contract |
| `Chart.InsertByTemperature` | main.py:174 | inserting into a list sorted by descending temperature keeps it sorted and adds exactly that row |
| `Chart.SortByTemperatureDesc` | main.py:174 | the result is sorted by descending temperature, missing last, and is a permutation of the input |
| `Chart.InsertKeepsDistinct` | main.py:174 | inserting a row about a new station keeps the rows one per station |
| `Chart.SortKeepsDistinct` | main.py:174 | sorting keeps the rows one per station |
| `Chart.LatestPerStationSpec` | main.py:169-174 | the chart table is sorted by descending temperature; each row is a station joined to its latest measurement; every station with a measurement appears; with unique station ids, one row per station |
| `Chart.LatestPerStation` | main.py:169-174 | the chart's table; definition only, its properties are `Chart.LatestPerStationSpec` |
| `Store.ReportOf` | main.py:111-118 | the answers of one snapshot; the gap row is a joined row with the largest gap |
| `Store.Store.constructor` | main.py:33-59 | a new file has two empty tables, nothing pending |
| `Store.Store.Wipe` | main.py:61-66 | both tables are empty, durably, and nothing is pending |
| `Store.Store.Commit` | main.py:120 | the committed tables become what the connection sees |
| `Store.Store.Rollback` | main.py:120-121 | when the commit is skipped, the connection's tables fall back to the committed ones |
| `Store.Store.InsertMeasurements` | main.py:97-100 | rows are appended in order until the first row whose `measurementid` is already present, which is reported; the stations table and the committed tables are unchanged |
| `Store.Store.InsertStations` | main.py:102-105 | rows are appended in order until the first row whose non-NULL `stationid` is already present, which is reported and not overwritten; other tables unchanged |
| `Store.Store.InsertSnapshot` | main.py:97-105 | into freshly wiped tables: succeeds exactly when both key columns of the new rows are unique, and the tables then hold exactly the new rows; on a clash it reports the first repeated key and holds the rows inserted before it; the committed tables stay empty |
| `Store.Store.Replace` | main.py:61-105 | the wipe followed by `Store.Store.InsertSnapshot`: the committed tables are empty; it succeeds exactly when both key columns of the new rows are unique, and the tables then hold exactly the new rows; on a clash it reports the first repeated key and holds the rows inserted before it |
| `Store.ReplaceTwice` | main.py:61-105 | replacing twice with the same rows gives the same outcome, the same tables in the connection and the same (empty) committed tables as replacing once |
| `Store.Store.CheckWeather` | main.py:21-121 | a failed request or JSON decoding leaves the file untouched; any other status than 200 leaves it empty; a duplicate station id or an empty join leaves it empty; otherwise the file holds exactly the new snapshot and the report answers the five questions over it |
| `Examples.AverageOfThree` | main.py:141-145 | the average of 10, 20 and 30 is 20 |
| `Examples.AverageSkipsNull` | main.py:141-145 | NULL temperatures are skipped, and with none present the average is NULL |
| `Examples.HighestKeepsTies` | main.py:128-135 | temperatures 15, 20, 20 give exactly the two rows with 20 |
| `Examples.NorthSeaPicksTheMarker` | main.py:161 | of "Waddenzee", "Noordzee kust" and "Maas" only the second matches |
| `Examples.NorthSeaIgnoresCase` | main.py:161 | "NOORDZEE" matches too |

## Left out

- HTTP retrieval (main.py:22-27) is network I/O. The response is a parameter of `CheckWeather`.
- The scheduling loop in `main` (main.py:11-18) is a wrapper over the `schedule` library and `time.sleep`. An exception from `CheckWeather` is not caught there, so it would end the process; the model stops at the failed cycle.
- Drawing the chart (main.py:175-183) is plotting with seaborn/matplotlib. Only the table it is drawn from is modelled.
- All `print` output (main.py:12-15, 27, 127-165) is presentation only.
- Connection handling, `VACUUM`, the `CREATE TABLE IF NOT EXISTS` on a file that already has the tables, and `close` (main.py:29-59, 65, 121) are storage-engine plumbing. The store object stands for a file whose tables exist.
- IEEE floating point for the REAL columns, `ABS` and `AVG` is floating-point numerics; temperatures are exact reals.
- `Chart.LatestOf`: pandas' `groupby().last()` takes the last non-NULL value column by column; the model keeps the whole last row. The order of rows with equal timestamps, and of chart rows with equal temperatures, follows fixed rules rather than pandas' unstable sort.
- A station row whose `stationid` is NULL is stored with a NULL key. SQLite would give it a fresh rowid, which could in turn clash with a later explicit id. This is an engine detail.
- JSON values of an unexpected type are not modelled: `actual` present but not an object, an entry that is not an object, or a field of the wrong type for its column's affinity. The feed type assumes well-formed values, each of which may be missing.
- `Queries.HighestTemperature`, `Queries.StationsInNorthSea`: the SQL has no `ORDER BY`, so only which rows are returned is stated, not their order.
