/**
 * The data steps of `generateBarChartForTemps`: the measurements are sorted
 * by timestamp and grouped by station, the last row of each group is kept,
 * merged (inner join) with the stations table on `stationid`, and the result
 * is sorted by temperature, highest first. The drawing itself is not part of
 * this model.
 *
 * Simplification: pandas' `groupby().last()` takes, column by column, the
 * last non-NULL value of the group, so one output row may mix columns from
 * several measurements. Here the whole last row of the group is kept.
 */
module Chart {
  import opened Wrappers
  import opened Rows
  import opened Text

  // ---------------------------------------------------------------------------
  // Latest measurement of a station

  /** The order of `sort_values(by="timestamp")`: present timestamps compare
      as Python strings, and a missing one sorts after every present one. */
  predicate TsLe(a: Option<string>, b: Option<string>) {
    b.None? || (a.Some? && StrLe(a.value, b.value))
  }

  lemma TsLeTotal(a: Option<string>, b: Option<string>)
    ensures TsLe(a, b) || TsLe(b, a)
  {
    if a.Some? && b.Some? {
      StrLeTotal(a.value, b.value);
    }
  }

  lemma TsLeTransitive(a: Option<string>, b: Option<string>, c: Option<string>)
    requires TsLe(a, b) && TsLe(b, c)
    ensures TsLe(a, c)
  {
    if a.Some? && b.Some? && c.Some? {
      StrLeTransitive(a.value, b.value, c.value);
    }
  }

  /** The last row of station `k`'s group after the sort: its greatest
      timestamp, and among rows with equal timestamps the later row of the
      table (pandas' default sort is not stable; this model fixes one rule). */
  function LatestOf(ms: seq<MeasurementRow>, k: int): (r: Option<MeasurementRow>)
    ensures r.None? <==> forall m :: m in ms ==> m.stationid != Some(k)
    ensures r.Some? ==> r.value in ms && r.value.stationid == Some(k)
    decreases |ms|
  {
    if ms == [] then None
    else
      var rest := LatestOf(ms[..|ms| - 1], k);
      var last := ms[|ms| - 1];
      assert ms == ms[..|ms| - 1] + [last];
      if last.stationid != Some(k) then rest
      else if rest.Some? && !TsLe(rest.value.timestamp, last.timestamp) then rest
      else Some(last)
  }

  /** `m` has the greatest timestamp among its station's measurements. */
  ghost predicate IsLatest(ms: seq<MeasurementRow>, m: MeasurementRow) {
    forall m' :: m' in ms && m'.stationid == m.stationid ==> TsLe(m'.timestamp, m.timestamp)
  }

  /** The row kept for a station has the greatest timestamp of its group, and
      no later row of the group has a timestamp as great. */
  lemma {:induction false} LatestOfIsLatest(ms: seq<MeasurementRow>, k: int)
    requires LatestOf(ms, k).Some?
    ensures IsLatest(ms, LatestOf(ms, k).value)
    ensures exists p :: 0 <= p < |ms| && ms[p] == LatestOf(ms, k).value &&
                        forall q :: p < q < |ms| && ms[q].stationid == Some(k) ==>
                          !TsLe(LatestOf(ms, k).value.timestamp, ms[q].timestamp)
    decreases |ms|
  {
    var init, last := ms[..|ms| - 1], ms[|ms| - 1];
    assert ms == init + [last];
    var rest := LatestOf(init, k);
    var r := LatestOf(ms, k).value;
    if rest.Some? {
      LatestOfIsLatest(init, k);
    }
    if last.stationid != Some(k) {
      var p :| 0 <= p < |init| && init[p] == r &&
               forall q :: p < q < |init| && init[q].stationid == Some(k) ==> !TsLe(r.timestamp, init[q].timestamp);
      assert ms[p] == r;
    } else if rest.Some? && !TsLe(rest.value.timestamp, last.timestamp) {
      forall m' | m' in ms && m'.stationid == r.stationid
        ensures TsLe(m'.timestamp, r.timestamp)
      {
        if m' == last {
          TsLeTotal(last.timestamp, r.timestamp);
        }
      }
      var p :| 0 <= p < |init| && init[p] == r &&
               forall q :: p < q < |init| && init[q].stationid == Some(k) ==> !TsLe(r.timestamp, init[q].timestamp);
      assert ms[p] == r;
    } else {
      forall m' | m' in ms && m'.stationid == r.stationid
        ensures TsLe(m'.timestamp, r.timestamp)
      {
        if m' != last {
          assert m' in init;
          TsLeTotal(last.timestamp, last.timestamp);
          TsLeTransitive(m'.timestamp, rest.value.timestamp, last.timestamp);
        } else {
          TsLeTotal(last.timestamp, last.timestamp);
        }
      }
      assert ms[|ms| - 1] == r;
    }
  }

  // ---------------------------------------------------------------------------
  // One row per station, merged with its station

  /** The merged row of one station: its latest measurement, if it has one. */
  function StationRowOf(ms: seq<MeasurementRow>, s: StationRow): seq<Joined> {
    match s.stationid
    case None => []
    case Some(k) =>
      match LatestOf(ms, k)
      case None => []
      case Some(m) => [Joined(m, s)]
  }

  /** `groupby("stationid").last()` merged with the stations table, before the
      final sort: one row per station row that has a measurement. */
  function LatestRows(ms: seq<MeasurementRow>, ss: seq<StationRow>): (r: seq<Joined>)
    ensures forall j :: j in r ==>
      j.s in ss && j.s.stationid.Some? && LatestOf(ms, j.s.stationid.value) == Some(j.m)
    ensures forall s :: s in ss && s.stationid.Some? && LatestOf(ms, s.stationid.value).Some? ==>
      Joined(LatestOf(ms, s.stationid.value).value, s) in r
    decreases |ss|
  {
    if ss == [] then [] else StationRowOf(ms, ss[0]) + LatestRows(ms, ss[1..])
  }

  /** No two rows are about the same station. */
  predicate DistinctStations(js: seq<Joined>) {
    forall i, j :: 0 <= i < j < |js| ==> js[i].s.stationid != js[j].s.stationid
  }

  /** With the stations' primary key in force, the merge yields one row per station. */
  lemma {:induction false} LatestRowsDistinct(ms: seq<MeasurementRow>, ss: seq<StationRow>)
    requires UniqueKeys(StationKeys(ss))
    ensures DistinctStations(LatestRows(ms, ss))
    decreases |ss|
  {
    if ss != [] {
      var tail := ss[1..];
      assert StationKeys(tail) == StationKeys(ss)[1..];
      LatestRowsDistinct(ms, tail);
      var head, rest := StationRowOf(ms, ss[0]), LatestRows(ms, tail);
      forall j | j in rest
        ensures j.s.stationid != ss[0].stationid
      {
        var p :| 0 <= p < |tail| && tail[p] == j.s;
        assert StationKeys(ss)[p + 1] == j.s.stationid;
        assert StationKeys(ss)[0] == ss[0].stationid;
      }
      var r := head + rest;
      forall a, b | 0 <= a < b < |r| ensures r[a].s.stationid != r[b].s.stationid {
        if a < |head| {
          assert r[a] == Joined(head[0].m, ss[0]);
          assert r[b] == rest[b - |head|] && r[b] in rest;
        } else {
          assert r[a] == rest[a - |head|] && r[b] == rest[b - |head|];
        }
      }
    }
  }

  // ---------------------------------------------------------------------------
  // Sort by temperature, highest first

  /** The order of `sort_values(by="temperature", ascending=False)`: higher
      temperatures first, a missing temperature after every present one. */
  predicate TempBefore(a: Option<real>, b: Option<real>) {
    b.None? || (a.Some? && a.value >= b.value)
  }

  predicate SortedByTemperatureDesc(js: seq<Joined>) {
    forall i, j :: 0 <= i < j < |js| ==> TempBefore(js[i].m.temperature, js[j].m.temperature)
  }

  /** A row put in front of sorted rows that it may precede keeps them sorted. */
  lemma SortedCons(h: Joined, t: seq<Joined>)
    requires SortedByTemperatureDesc(t)
    requires forall j :: j in t ==> TempBefore(h.m.temperature, j.m.temperature)
    ensures SortedByTemperatureDesc([h] + t)
  {
    var r := [h] + t;
    forall a, b | 0 <= a < b < |r| ensures TempBefore(r[a].m.temperature, r[b].m.temperature) {
      assert r[b] == t[b - 1] && r[b] in t;
      if a > 0 { assert r[a] == t[a - 1]; }
    }
  }

  function InsertByTemperature(x: Joined, js: seq<Joined>): (r: seq<Joined>)
    requires SortedByTemperatureDesc(js)
    ensures SortedByTemperatureDesc(r)
    ensures multiset(r) == multiset(js) + multiset{x}
    ensures forall j :: j in r <==> j in js || j == x
    decreases |js|
  {
    if js == [] || TempBefore(x.m.temperature, js[0].m.temperature) then
      assert forall j :: j in js ==> TempBefore(x.m.temperature, j.m.temperature) by {
        forall j | j in js ensures TempBefore(x.m.temperature, j.m.temperature) {
          var p :| 0 <= p < |js| && js[p] == j;
          assert p == 0 || TempBefore(js[0].m.temperature, js[p].m.temperature);
        }
      }
      SortedCons(x, js);
      [x] + js
    else
      var t := js[1..];
      assert js == [js[0]] + t;
      assert SortedByTemperatureDesc(t) by {
        forall a, b | 0 <= a < b < |t| ensures TempBefore(t[a].m.temperature, t[b].m.temperature) {
          assert t[a] == js[a + 1] && t[b] == js[b + 1];
        }
      }
      var rest := InsertByTemperature(x, t);
      assert forall j :: j in rest ==> TempBefore(js[0].m.temperature, j.m.temperature) by {
        forall j | j in rest ensures TempBefore(js[0].m.temperature, j.m.temperature) {
          if j != x {
            var p :| 0 <= p < |t| && t[p] == j;
            assert js[p + 1] == j;
          }
        }
      }
      SortedCons(js[0], rest);
      [js[0]] + rest
  }

  /** An insertion sort; pandas' sort is a quicksort that is not stable, so
      only the order of temperatures is promised, not the order of ties. */
  function SortByTemperatureDesc(js: seq<Joined>): (r: seq<Joined>)
    ensures SortedByTemperatureDesc(r)
    ensures multiset(r) == multiset(js)
    decreases |js|
  {
    if js == [] then []
    else
      assert js == [js[0]] + js[1..];
      InsertByTemperature(js[0], SortByTemperatureDesc(js[1..]))
  }

  /** A row put in front of rows about other stations keeps them distinct, and
      conversely. */
  lemma DistinctCons(h: Joined, t: seq<Joined>)
    ensures DistinctStations([h] + t) <==>
      DistinctStations(t) && forall j :: j in t ==> j.s.stationid != h.s.stationid
  {
    var r := [h] + t;
    if DistinctStations(t) && forall j :: j in t ==> j.s.stationid != h.s.stationid {
      forall a, b | 0 <= a < b < |r| ensures r[a].s.stationid != r[b].s.stationid {
        assert r[b] == t[b - 1];
        if a > 0 { assert r[a] == t[a - 1]; }
      }
    }
    if DistinctStations(r) {
      forall a, b | 0 <= a < b < |t| ensures t[a].s.stationid != t[b].s.stationid {
        assert t[a] == r[a + 1] && t[b] == r[b + 1];
      }
      forall j | j in t ensures j.s.stationid != h.s.stationid {
        var p :| 0 <= p < |t| && t[p] == j;
        assert r[0] == h && r[p + 1] == j;
      }
    }
  }

  /** Sorting only reorders rows, so it keeps them one per station. */
  lemma {:induction false} InsertKeepsDistinct(x: Joined, js: seq<Joined>)
    requires SortedByTemperatureDesc(js)
    requires DistinctStations(js) && forall j :: j in js ==> j.s.stationid != x.s.stationid
    ensures DistinctStations(InsertByTemperature(x, js))
    decreases |js|
  {
    if js == [] || TempBefore(x.m.temperature, js[0].m.temperature) {
      DistinctCons(x, js);
    } else {
      var t := js[1..];
      assert js == [js[0]] + t;
      DistinctCons(js[0], t);
      InsertKeepsDistinct(x, t);
      var rest := InsertByTemperature(x, t);
      forall j | j in rest ensures j.s.stationid != js[0].s.stationid {
        assert j in multiset(rest);
        assert j in multiset(t) || j == x;
      }
      DistinctCons(js[0], rest);
    }
  }

  lemma {:induction false} SortKeepsDistinct(js: seq<Joined>)
    requires DistinctStations(js)
    ensures DistinctStations(SortByTemperatureDesc(js))
    decreases |js|
  {
    if js != [] {
      var t := js[1..];
      assert js == [js[0]] + t;
      DistinctCons(js[0], t);
      SortKeepsDistinct(t);
      var sorted := SortByTemperatureDesc(t);
      forall j | j in sorted ensures j.s.stationid != js[0].s.stationid {
        assert j in multiset(sorted);
      }
      InsertKeepsDistinct(js[0], sorted);
    }
  }

  // ---------------------------------------------------------------------------
  // The chart's table

  /** The table the bar chart is drawn from. */
  function LatestPerStation(ms: seq<MeasurementRow>, ss: seq<StationRow>): seq<Joined> {
    SortByTemperatureDesc(LatestRows(ms, ss))
  }

  /** The chart's table holds, for every station row that has a measurement,
      exactly that station's latest measurement joined to it, one row per
      station, highest temperature first. */
  lemma LatestPerStationSpec(ms: seq<MeasurementRow>, ss: seq<StationRow>)
    ensures SortedByTemperatureDesc(LatestPerStation(ms, ss))
    ensures forall j :: j in LatestPerStation(ms, ss) ==>
      j.s in ss && j.m in ms && j.m.stationid.Some? && j.s.stationid == j.m.stationid && IsLatest(ms, j.m)
    ensures forall s :: s in ss && s.stationid.Some? && (exists m :: m in ms && m.stationid == s.stationid) ==>
      exists j :: j in LatestPerStation(ms, ss) && j.s == s
    ensures UniqueKeys(StationKeys(ss)) ==> DistinctStations(LatestPerStation(ms, ss))
  {
    var rows := LatestRows(ms, ss);
    var r := LatestPerStation(ms, ss);
    assert forall j :: j in r <==> j in rows by {
      forall j ensures j in r <==> j in rows {
        assert j in r <==> j in multiset(r);
        assert j in rows <==> j in multiset(rows);
      }
    }
    forall j | j in r
      ensures j.s in ss && j.m in ms && j.m.stationid.Some? && j.s.stationid == j.m.stationid && IsLatest(ms, j.m)
    {
      LatestOfIsLatest(ms, j.s.stationid.value);
    }
    forall s | s in ss && s.stationid.Some? && (exists m :: m in ms && m.stationid == s.stationid)
      ensures exists j :: j in r && j.s == s
    {
      assert Joined(LatestOf(ms, s.stationid.value).value, s) in rows;
    }
    if UniqueKeys(StationKeys(ss)) {
      LatestRowsDistinct(ms, ss);
      SortKeepsDistinct(rows);
    }
  }
}
