/**
 * The SQLite file `stationsData.db` and one run of `CheckWeather` against it.
 *
 * The store keeps two views of the two tables: what the open connection sees
 * (uncommitted inserts included) and what is committed to the file. The
 * wipe runs through `executescript`, which commits, so it is durable at once;
 * the inserts stay pending until `conn.commit()` at the end of the cycle. An
 * exception raised after the wipe skips that commit, and the pending inserts
 * are lost with the connection: the file is left with the wiped, empty tables.
 * Foreign keys are not switched on for the connection, so the order of the
 * two inserts and the `ON DELETE CASCADE` clause have no effect.
 */
module Store {
  import opened Wrappers
  import opened Rows
  import Translation
  import Queries
  import Chart

  /** What `requests.get` gives back: an exception, or a status code and the
      body decoded by `response.json()` (`None` when that raises). */
  datatype Fetched = RequestFailed | Response(status: int, json: Option<Feed>)

  /** Why a cycle ends with an exception. */
  datatype CycleError =
    | RequestError              // `requests.get` raised
    | BodyNotJson               // `response.json()` raised
    | DataUnbound(status: int)  // a status other than 200 leaves `data` unbound
    | MeasurementIdClash(index: nat)  // IntegrityError while inserting measurement `index`
    | StationIdClash(index: nat)      // IntegrityError while inserting station `index`
    | NoJoinedRow               // `fetchone()` found no row, so `results[1]` raises

  /** The answers of the fixed questions, as the cycle computes them. */
  datatype Report = Report(
    highest: seq<Joined>,
    average: Option<real>,
    biggestGap: Joined,
    northSea: seq<StationRow>,
    chart: seq<Joined>)

  datatype CycleResult = Completed(report: Report) | Failed(error: CycleError)

  /** The questions asked of a snapshot whose join is not empty. */
  function ReportOf(ms: seq<MeasurementRow>, ss: seq<StationRow>): (r: Report)
    requires Queries.Join(ms, ss) != []
    ensures r.biggestGap in Queries.Join(ms, ss)
    ensures forall j :: j in Queries.Join(ms, ss) ==> Queries.GapLe(Queries.Gap(j), Queries.Gap(r.biggestGap))
  {
    Report(Queries.HighestTemperature(ms, ss),
           Queries.AverageTemperature(ms),
           Queries.BiggestDiffFeelActual(ms, ss).value,
           Queries.StationsInNorthSea(ss),
           Chart.LatestPerStation(ms, ss))
  }

  class Store {
    /** The tables as the connection sees them. */
    var stations: seq<StationRow>
    var measurements: seq<MeasurementRow>
    /** The tables as committed to the file. */
    var savedStations: seq<StationRow>
    var savedMeasurements: seq<MeasurementRow>

    /** Both primary keys hold in both views. */
    ghost predicate Valid()
      reads this
    {
      UniqueKeys(StationKeys(stations)) && UniqueKeys(MeasurementKeys(measurements)) &&
      UniqueKeys(StationKeys(savedStations)) && UniqueKeys(MeasurementKeys(savedMeasurements))
    }

    /** No transaction is open: the connection sees what is committed. */
    ghost predicate Settled()
      reads this
    {
      stations == savedStations && measurements == savedMeasurements
    }

    /** The two `CREATE TABLE IF NOT EXISTS` on a new file: two empty tables. */
    constructor ()
      ensures Valid() && Settled()
      ensures stations == [] && measurements == []
    {
      stations, measurements := [], [];
      savedStations, savedMeasurements := [], [];
    }

    /** `executescript` of the two DELETEs and VACUUM: it commits what was
        pending and then empties both tables, durably. */
    method Wipe()
      modifies this
      ensures Valid() && Settled()
      ensures stations == [] && measurements == []
    {
      stations, measurements := [], [];
      savedStations, savedMeasurements := [], [];
    }

    /** `conn.commit()`. */
    method Commit()
      requires Valid()
      modifies this
      ensures Valid() && Settled()
      ensures stations == old(stations) && measurements == old(measurements)
    {
      savedStations, savedMeasurements := stations, measurements;
    }

    /** The connection goes away without a commit: pending inserts are lost. */
    method Rollback()
      requires Valid()
      modifies this
      ensures Valid() && Settled()
      ensures savedStations == old(savedStations) && savedMeasurements == old(savedMeasurements)
    {
      stations, measurements := savedStations, savedMeasurements;
    }

    /** `executemany` of the measurement INSERT: row by row, stopping at the
        first row whose `measurementid` is already in the table. */
    method InsertMeasurements(rows: seq<MeasurementRow>) returns (failedAt: Option<nat>)
      requires Valid()
      modifies this
      ensures Valid()
      ensures stations == old(stations)
      ensures savedStations == old(savedStations) && savedMeasurements == old(savedMeasurements)
      ensures failedAt.None? ==> measurements == old(measurements) + rows
      ensures failedAt.Some? ==>
        failedAt.value < |rows| && measurements == old(measurements) + rows[..failedAt.value] &&
        Some(rows[failedAt.value].measurementid) in MeasurementKeys(measurements)
    {
      failedAt := None;
      var i := 0;
      while i < |rows|
        invariant 0 <= i <= |rows|
        invariant Valid()
        invariant stations == old(stations)
        invariant savedStations == old(savedStations) && savedMeasurements == old(savedMeasurements)
        invariant measurements == old(measurements) + rows[..i]
      {
        var row := rows[i];
        if Some(row.measurementid) in MeasurementKeys(measurements) {
          failedAt := Some(i);
          return;
        }
        MeasurementKeysAppend(measurements, row);
        UniqueAppend(MeasurementKeys(measurements), Some(row.measurementid));
        assert rows[..i + 1] == rows[..i] + [row];
        measurements := measurements + [row];
        i := i + 1;
      }
      assert rows[..i] == rows;
    }

    /** `executemany` of the station INSERT: row by row, stopping at the first
        row whose `stationid` is already in the table (a plain INSERT does not
        overwrite). */
    method InsertStations(rows: seq<StationRow>) returns (failedAt: Option<nat>)
      requires Valid()
      modifies this
      ensures Valid()
      ensures measurements == old(measurements)
      ensures savedStations == old(savedStations) && savedMeasurements == old(savedMeasurements)
      ensures failedAt.None? ==> stations == old(stations) + rows
      ensures failedAt.Some? ==>
        failedAt.value < |rows| && stations == old(stations) + rows[..failedAt.value] &&
        rows[failedAt.value].stationid.Some? && rows[failedAt.value].stationid in StationKeys(stations)
    {
      failedAt := None;
      var i := 0;
      while i < |rows|
        invariant 0 <= i <= |rows|
        invariant Valid()
        invariant measurements == old(measurements)
        invariant savedStations == old(savedStations) && savedMeasurements == old(savedMeasurements)
        invariant stations == old(stations) + rows[..i]
      {
        var row := rows[i];
        if row.stationid.Some? && row.stationid in StationKeys(stations) {
          failedAt := Some(i);
          return;
        }
        StationKeysAppend(stations, row);
        UniqueAppend(StationKeys(stations), row.stationid);
        assert rows[..i + 1] == rows[..i] + [row];
        stations := stations + [row];
        i := i + 1;
      }
      assert rows[..i] == rows;
    }

    /** The two inserts into freshly wiped tables, measurements first. On an
        IntegrityError the connection is left holding the rows inserted so
        far; the file holds the wiped, empty tables either way. */
    method InsertSnapshot(ms: seq<MeasurementRow>, ss: seq<StationRow>) returns (err: Option<CycleError>)
      requires Valid() && Settled() && stations == [] && measurements == []
      modifies this
      ensures Valid()
      ensures savedStations == [] && savedMeasurements == []
      ensures err.None? <==> UniqueKeys(MeasurementKeys(ms)) && UniqueKeys(StationKeys(ss))
      ensures err.None? ==> measurements == ms && stations == ss
      ensures err.Some? ==> err.value.MeasurementIdClash? || err.value.StationIdClash?
      ensures err.Some? && err.value.MeasurementIdClash? ==>
        FirstRepeat(MeasurementKeys(ms)) == Some(err.value.index) &&
        measurements == ms[..err.value.index] && stations == []
      ensures err.Some? && err.value.StationIdClash? ==>
        UniqueKeys(MeasurementKeys(ms)) && FirstRepeat(StationKeys(ss)) == Some(err.value.index) &&
        measurements == ms && stations == ss[..err.value.index]
    {
      var failed := InsertMeasurements(ms);
      if failed.Some? {
        var k := failed.value;
        assert measurements == ms[..k];
        MeasurementKeysPrefix(ms, k);
        FirstRepeatAt(MeasurementKeys(ms), k);
        return Some(MeasurementIdClash(k));
      }
      assert measurements == ms;
      assert UniqueKeys(MeasurementKeys(ms));
      failed := InsertStations(ss);
      if failed.Some? {
        var k := failed.value;
        assert stations == ss[..k];
        StationKeysPrefix(ss, k);
        FirstRepeatAt(StationKeys(ss), k);
        return Some(StationIdClash(k));
      }
      assert stations == ss && measurements == ms;
      return None;
    }

    /** The wipe followed by the two inserts. */
    method Replace(ms: seq<MeasurementRow>, ss: seq<StationRow>) returns (err: Option<CycleError>)
      modifies this
      ensures Valid()
      ensures savedStations == [] && savedMeasurements == []
      ensures err.None? <==> UniqueKeys(MeasurementKeys(ms)) && UniqueKeys(StationKeys(ss))
      ensures err.None? ==> measurements == ms && stations == ss
      ensures err.Some? ==> err.value.MeasurementIdClash? || err.value.StationIdClash?
      ensures err.Some? && err.value.MeasurementIdClash? ==>
        FirstRepeat(MeasurementKeys(ms)) == Some(err.value.index) &&
        measurements == ms[..err.value.index] && stations == []
      ensures err.Some? && err.value.StationIdClash? ==>
        UniqueKeys(MeasurementKeys(ms)) && FirstRepeat(StationKeys(ss)) == Some(err.value.index) &&
        measurements == ms && stations == ss[..err.value.index]
    {
      Wipe();
      err := InsertSnapshot(ms, ss);
    }

    /** One run of `CheckWeather`: fetch, wipe, translate, insert, ask the
        questions, commit. */
    method CheckWeather(fetched: Fetched) returns (result: CycleResult)
      requires Valid() && Settled()
      modifies this
      ensures Valid() && Settled()
      // the request or the JSON decoding fails before the file is opened
      ensures fetched.RequestFailed? ==>
        result == Failed(RequestError) &&
        stations == old(stations) && measurements == old(measurements)
      ensures fetched.Response? && fetched.status == 200 && fetched.json.None? ==>
        result == Failed(BodyNotJson) &&
        stations == old(stations) && measurements == old(measurements)
      // any other status: the wipe has run when `data` is found unbound
      ensures fetched.Response? && fetched.status != 200 ==>
        result == Failed(DataUnbound(fetched.status)) && stations == [] && measurements == []
      ensures fetched.Response? && fetched.status == 200 && fetched.json.Some? ==>
        var es := Translation.Entries(fetched.json.value);
        var ms, ss := Translation.MeasurementRows(es), Translation.StationRows(es);
        if !UniqueKeys(StationKeys(ss)) then
          result.Failed? && result.error.StationIdClash? &&
          FirstRepeat(StationKeys(ss)) == Some(result.error.index) &&
          stations == [] && measurements == []
        else if Queries.Join(ms, ss) == [] then
          result == Failed(NoJoinedRow) && stations == [] && measurements == []
        else
          result == Completed(ReportOf(ms, ss)) && stations == ss && measurements == ms
    {
      if fetched.RequestFailed? {
        return Failed(RequestError);
      }
      if fetched.status == 200 && fetched.json.None? {
        return Failed(BodyNotJson);
      }
      Wipe();
      if fetched.status != 200 {
        return Failed(DataUnbound(fetched.status));
      }
      var es := Translation.Entries(fetched.json.value);
      var ms, ss := Translation.Translate(es);
      Translation.MeasurementIdsUnique(es);
      var err := InsertSnapshot(ms, ss);
      if err.Some? {
        Rollback();
        return Failed(err.value);
      }
      var gap := Queries.BiggestDiffFeelActual(ms, ss);
      if gap.None? {
        Rollback();
        return Failed(NoJoinedRow);
      }
      var report := Report(Queries.HighestTemperature(ms, ss),
                           Queries.AverageTemperature(ms),
                           gap.value,
                           Queries.StationsInNorthSea(ss),
                           Chart.LatestPerStation(ms, ss));
      Commit();
      return Completed(report);
    }
  }

  /** Replacing twice with the same rows leaves the same tables and gives the
      same outcome as replacing once. */
  method ReplaceTwice(store: Store, ms: seq<MeasurementRow>, ss: seq<StationRow>)
    returns (first: Option<CycleError>, second: Option<CycleError>,
             stationsOnce: seq<StationRow>, measurementsOnce: seq<MeasurementRow>)
    modifies store
    ensures first == second
    ensures store.stations == stationsOnce && store.measurements == measurementsOnce
    ensures store.savedStations == [] && store.savedMeasurements == []
  {
    first := store.Replace(ms, ss);
    stationsOnce, measurementsOnce := store.stations, store.measurements;
    second := store.Replace(ms, ss);
  }
}
