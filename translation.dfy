/**
 * The payload-to-rows step of `CheckWeather`: the list of entries is looked
 * up with defaults, and each entry becomes one measurement tuple (numbered by
 * a counter from 0) and one station tuple, appended to two local lists.
 */
module Translation {
  import opened Wrappers
  import opened Rows

  /** `data.get("actual", {}).get("stationmeasurements", [])`: a missing key
      at either level gives the empty list. */
  function Entries(feed: Feed): seq<Entry> {
    match feed.actual
    case None => []
    case Some(a) => a.stationmeasurements.GetOr([])
  }

  /** The measurement tuple of one entry, numbered `id`. */
  function MeasurementOf(id: int, e: Entry): MeasurementRow {
    MeasurementRow(id, e.timestamp, e.temperature, e.groundtemperature, e.feeltemperature,
                   e.windgusts, e.windspeedBft, e.humidity, e.precipitation, e.sunpower, e.stationid)
  }

  /** The station tuple of one entry; the feed's `lon` goes to the `long` column. */
  function StationOf(e: Entry): StationRow {
    StationRow(e.stationid, e.stationname, e.lat, e.lon, e.regio)
  }

  /** The measurement rows of a snapshot: entry `i` becomes row `i`, numbered `i`. */
  function MeasurementRows(es: seq<Entry>): seq<MeasurementRow> {
    seq(|es|, i requires 0 <= i < |es| => MeasurementOf(i, es[i]))
  }

  /** The station rows of a snapshot: entry `i` becomes row `i`. */
  function StationRows(es: seq<Entry>): seq<StationRow> {
    seq(|es|, i requires 0 <= i < |es| => StationOf(es[i]))
  }

  /** The loop over the entries, building both lists in step. */
  method Translate(es: seq<Entry>) returns (ms: seq<MeasurementRow>, ss: seq<StationRow>)
    ensures |ms| == |es| && |ss| == |es|
    ensures forall i :: 0 <= i < |es| ==> ms[i].measurementid == i
    ensures forall i :: 0 <= i < |es| ==> ms[i].stationid == ss[i].stationid == es[i].stationid
    ensures ms == MeasurementRows(es) && ss == StationRows(es)
  {
    ms, ss := [], [];
    var measurementid := 0;
    for i := 0 to |es|
      invariant measurementid == i
      invariant |ms| == i && |ss| == i
      invariant forall k :: 0 <= k < i ==> ms[k] == MeasurementOf(k, es[k])
      invariant forall k :: 0 <= k < i ==> ss[k] == StationOf(es[k])
    {
      ms := ms + [MeasurementOf(measurementid, es[i])];
      ss := ss + [StationOf(es[i])];
      measurementid := measurementid + 1;
    }
  }

  /** A feed without `actual`, or whose `actual` has no `stationmeasurements`,
      yields no rows at all. */
  lemma MissingKeysGiveEmptySnapshot(feed: Feed)
    requires feed.actual.None? || feed.actual.value.stationmeasurements.None?
    ensures MeasurementRows(Entries(feed)) == [] && StationRows(Entries(feed)) == []
  {
  }

  /** The measurement ids of one snapshot are 0, 1, ..., n-1, so the
      measurements' primary key never clashes within a snapshot. */
  lemma {:induction false} MeasurementIdsUnique(es: seq<Entry>)
    ensures forall i :: 0 <= i < |es| ==> MeasurementRows(es)[i].measurementid == i
    ensures UniqueKeys(MeasurementKeys(MeasurementRows(es)))
  {
  }

  /** Measurement `i` and station `i` carry the entry's `stationid`, so every
      measurement with a station id refers to a station row of the same snapshot. */
  lemma {:induction false} SnapshotIsReferentiallyClosed(es: seq<Entry>)
    ensures |MeasurementRows(es)| == |StationRows(es)| == |es|
    ensures forall i :: 0 <= i < |es| ==>
      MeasurementRows(es)[i].stationid == StationRows(es)[i].stationid == es[i].stationid
    ensures forall m :: m in MeasurementRows(es) && m.stationid.Some? ==>
      m.stationid in StationKeys(StationRows(es))
  {
    forall m | m in MeasurementRows(es) && m.stationid.Some?
      ensures m.stationid in StationKeys(StationRows(es))
    {
      var i :| 0 <= i < |es| && MeasurementRows(es)[i] == m;
      assert StationKeys(StationRows(es))[i] == m.stationid;
    }
  }
}
