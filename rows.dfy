/**
 * The records the ingestion cycle handles: one element of the feed's
 * `actual.stationmeasurements` list, the tuples it is translated into for the
 * two tables `weatherStationMeasurements` and `weatherStations`, and the row
 * of an inner join of the two on `stationid`.
 */
module Rows {
  import opened Wrappers

  /** One element of `actual.stationmeasurements`; every key is read with
      `.get`, so every field may be missing. */
  datatype Entry = Entry(
    stationid: Option<int>,
    stationname: Option<string>,
    lat: Option<real>,
    lon: Option<real>,
    regio: Option<string>,
    timestamp: Option<string>,
    temperature: Option<real>,
    groundtemperature: Option<real>,
    feeltemperature: Option<real>,
    windgusts: Option<real>,
    windspeedBft: Option<int>,
    humidity: Option<int>,
    precipitation: Option<real>,
    sunpower: Option<real>)

  /** The `actual` object of the feed; `stationmeasurements` may be absent. */
  datatype Actual = Actual(stationmeasurements: Option<seq<Entry>>)

  /** The decoded JSON document; `actual` may be absent. */
  datatype Feed = Feed(actual: Option<Actual>)

  /** A row of `weatherStationMeasurements`; `measurementid` is its primary key. */
  datatype MeasurementRow = MeasurementRow(
    measurementid: int,
    timestamp: Option<string>,
    temperature: Option<real>,
    groundtemperature: Option<real>,
    feeltemperature: Option<real>,
    windgusts: Option<real>,
    windspeedBft: Option<int>,
    humidity: Option<int>,
    precipitation: Option<real>,
    sunpower: Option<real>,
    stationid: Option<int>)

  /** A row of `weatherStations`; `stationid` is its primary key. The column
      that holds the feed's `lon` is called `long` in the table. */
  datatype StationRow = StationRow(
    stationid: Option<int>,
    stationname: Option<string>,
    lat: Option<real>,
    long: Option<real>,
    regio: Option<string>)

  /** A measurement together with the station it refers to. */
  datatype Joined = Joined(m: MeasurementRow, s: StationRow)

  /** The primary-key column of the stations table, row by row. */
  function StationKeys(ss: seq<StationRow>): seq<Option<int>> {
    seq(|ss|, i requires 0 <= i < |ss| => ss[i].stationid)
  }

  /** The primary-key column of the measurements table, row by row. */
  function MeasurementKeys(ms: seq<MeasurementRow>): seq<Option<int>> {
    seq(|ms|, i requires 0 <= i < |ms| => Some(ms[i].measurementid))
  }

  /** No two rows share a present key: the primary-key constraint. */
  predicate UniqueKeys(ks: seq<Option<int>>) {
    forall i, j :: 0 <= i < j < |ks| && ks[i].Some? ==> ks[i] != ks[j]
  }

  lemma StationKeysAppend(ss: seq<StationRow>, s: StationRow)
    ensures StationKeys(ss + [s]) == StationKeys(ss) + [s.stationid]
  {
  }

  lemma StationKeysPrefix(ss: seq<StationRow>, k: nat)
    requires k <= |ss|
    ensures StationKeys(ss[..k]) == StationKeys(ss)[..k]
  {
  }

  lemma MeasurementKeysAppend(ms: seq<MeasurementRow>, m: MeasurementRow)
    ensures MeasurementKeys(ms + [m]) == MeasurementKeys(ms) + [Some(m.measurementid)]
  {
  }

  lemma MeasurementKeysPrefix(ms: seq<MeasurementRow>, k: nat)
    requires k <= |ms|
    ensures MeasurementKeys(ms[..k]) == MeasurementKeys(ms)[..k]
  {
  }

  /** Appending a row whose key is missing or new keeps the keys unique. */
  lemma UniqueAppend(ks: seq<Option<int>>, k: Option<int>)
    requires UniqueKeys(ks) && (k.None? || k !in ks)
    ensures UniqueKeys(ks + [k])
  {
    var r := ks + [k];
    forall i, j | 0 <= i < j < |r| && r[i].Some? ensures r[i] != r[j] {
      if j == |ks| {
        assert r[i] == ks[i] && r[i] in ks;
      } else {
        assert r[i] == ks[i] && r[j] == ks[j];
      }
    }
  }

  /** The position of the first key that repeats an earlier present key:
      where a row-by-row insert into an empty table stops. */
  function FirstRepeat(ks: seq<Option<int>>): (r: Option<nat>)
    ensures r.None? <==> UniqueKeys(ks)
    ensures r.Some? ==> r.value < |ks| && ks[r.value].Some? && ks[r.value] in ks[..r.value] &&
                        UniqueKeys(ks[..r.value])
    decreases |ks|
  {
    if ks == [] then None
    else
      var init, last := ks[..|ks| - 1], ks[|ks| - 1];
      assert ks == init + [last];
      match FirstRepeat(init)
      case Some(k) =>
        assert init[..k] == ks[..k];
        assert !UniqueKeys(ks) by {
          var p :| 0 <= p < k && ks[p] == ks[k];
        }
        Some(k)
      case None =>
        if last.Some? && last in init then
          assert !UniqueKeys(ks) by {
            var p :| 0 <= p < |init| && init[p] == last;
            assert ks[p] == ks[|ks| - 1];
          }
          Some(|ks| - 1)
        else
          UniqueAppend(init, last);
          None
  }

  /** A clash at `k` after a unique prefix is the first repeat. */
  lemma FirstRepeatAt(ks: seq<Option<int>>, k: nat)
    requires k < |ks| && ks[k].Some? && ks[k] in ks[..k] && UniqueKeys(ks[..k])
    ensures FirstRepeat(ks) == Some(k)
  {
    var r := FirstRepeat(ks);
    var p :| 0 <= p < k && ks[..k][p] == ks[k];
  }
}
