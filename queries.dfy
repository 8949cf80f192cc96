/**
 * The fixed analytic questions asked of the store after each refresh: the
 * highest temperature with all its ties, the average temperature, the
 * largest gap between felt and actual temperature, the stations whose region
 * mentions the North Sea, and the latest-measurement-per-station table that
 * the bar chart is drawn from. Each is a pure function of the two tables, in
 * table order (rows in insertion order).
 */
module Queries {
  import opened Wrappers
  import opened Rows
  import opened Text

  // ---------------------------------------------------------------------------
  // Inner join on stationid (SQL NULL never equals anything)

  /** The stations a measurement joins with, in station-table order. */
  function Matches(m: MeasurementRow, ss: seq<StationRow>): (r: seq<Joined>)
    ensures forall j :: j in r <==>
      j.m == m && j.s in ss && m.stationid.Some? && j.s.stationid == m.stationid
    decreases |ss|
  {
    if ss == [] then []
    else
      (if m.stationid.Some? && ss[0].stationid == m.stationid then [Joined(m, ss[0])] else [])
      + Matches(m, ss[1..])
  }

  /** `weatherStationMeasurements JOIN weatherStations ON wSM.stationid = wS.stationid`. */
  function Join(ms: seq<MeasurementRow>, ss: seq<StationRow>): (r: seq<Joined>)
    ensures forall j :: j in r <==>
      j.m in ms && j.s in ss && j.m.stationid.Some? && j.s.stationid == j.m.stationid
    decreases |ms|
  {
    if ms == [] then [] else Matches(ms[0], ss) + Join(ms[1..], ss)
  }

  /** The join is empty exactly when no measurement shares a stationid with a station. */
  lemma JoinEmpty(ms: seq<MeasurementRow>, ss: seq<StationRow>)
    ensures Join(ms, ss) == [] <==>
      forall m, s :: m in ms && s in ss ==> m.stationid.None? || s.stationid != m.stationid
  {
    if Join(ms, ss) != [] {
      var j := Join(ms, ss)[0];
      assert j in Join(ms, ss);
    } else {
      assert forall m, s :: m in ms && s in ss && m.stationid.Some? && s.stationid == m.stationid ==>
        Joined(m, s) in Join(ms, ss);
    }
  }

  /** The join is measurement-major: a further measurement row adds its
      matching stations after all earlier rows' matches. */
  lemma {:induction false} JoinAppend(ms: seq<MeasurementRow>, m: MeasurementRow, ss: seq<StationRow>)
    ensures Join(ms + [m], ss) == Join(ms, ss) + Matches(m, ss)
    decreases |ms|
  {
    if ms == [] {
      assert ([] + [m])[1..] == [];
    } else {
      assert (ms + [m])[1..] == ms[1..] + [m];
      JoinAppend(ms[1..], m, ss);
    }
  }

  // ---------------------------------------------------------------------------
  // Highest temperature, ties included

  /** `t` is at least every temperature present in the measurements table. */
  ghost predicate AtLeastEveryTemperature(ms: seq<MeasurementRow>, t: real) {
    forall m :: m in ms && m.temperature.Some? ==> m.temperature.value <= t
  }

  /** `SELECT MAX(temperature) FROM weatherStationMeasurements`: NULLs are
      skipped, and the result is NULL when no temperature is present. */
  function MaxTemperature(ms: seq<MeasurementRow>): (r: Option<real>)
    ensures r.None? <==> forall m :: m in ms ==> m.temperature.None?
    ensures r.Some? ==> exists m :: m in ms && m.temperature == r
    ensures r.Some? ==> AtLeastEveryTemperature(ms, r.value)
    decreases |ms|
  {
    if ms == [] then None
    else
      var rest := MaxTemperature(ms[1..]);
      match ms[0].temperature
      case None => rest
      case Some(t) => if rest.Some? && rest.value > t then rest else Some(t)
  }

  /** The joined rows whose temperature is exactly `t`. */
  function WithTemperature(js: seq<Joined>, t: real): (r: seq<Joined>)
    ensures forall j :: j in r <==> j in js && j.m.temperature == Some(t)
    decreases |js|
  {
    if js == [] then []
    else (if js[0].m.temperature == Some(t) then [js[0]] else []) + WithTemperature(js[1..], t)
  }

  /** `findHighestTemperature`: the joined rows whose temperature equals the
      maximum over the whole measurements table (the subquery is not joined). */
  function HighestTemperature(ms: seq<MeasurementRow>, ss: seq<StationRow>): (r: seq<Joined>)
    ensures forall j :: j in r <==>
      j in Join(ms, ss) && j.m.temperature.Some? && AtLeastEveryTemperature(ms, j.m.temperature.value)
    ensures (forall m :: m in ms ==> m.temperature.None?) ==> r == []
  {
    match MaxTemperature(ms)
    case None => []
    case Some(t) => WithTemperature(Join(ms, ss), t)
  }

  // ---------------------------------------------------------------------------
  // Average temperature, NULL when there is nothing to average

  /** The sum of the present temperatures. */
  function TemperatureSum(ms: seq<MeasurementRow>): real
    decreases |ms|
  {
    if ms == [] then 0.0 else ms[0].temperature.GetOr(0.0) + TemperatureSum(ms[1..])
  }

  /** How many temperatures are present. */
  function TemperatureCount(ms: seq<MeasurementRow>): (n: nat)
    ensures n == 0 <==> forall m :: m in ms ==> m.temperature.None?
    ensures n <= |ms|
    decreases |ms|
  {
    if ms == [] then 0 else (if ms[0].temperature.Some? then 1 else 0) + TemperatureCount(ms[1..])
  }

  /** `SELECT AVG(temperature) FROM weatherStationMeasurements`. */
  function AverageTemperature(ms: seq<MeasurementRow>): (r: Option<real>)
    ensures r.None? <==> forall m :: m in ms ==> m.temperature.None?
    ensures r.Some? ==> r.value * TemperatureCount(ms) as real == TemperatureSum(ms)
  {
    var n := TemperatureCount(ms);
    if n == 0 then None else Some(TemperatureSum(ms) / n as real)
  }

  /** `total` lies between `c` times `lo` and `c` times `hi`. */
  predicate Scaled(lo: real, hi: real, c: real, total: real) {
    lo * c <= total <= hi * c
  }

  /** Bounds on the present temperatures bound their sum. */
  lemma {:induction false} SumBetween(ms: seq<MeasurementRow>, lo: real, hi: real)
    requires forall m :: m in ms && m.temperature.Some? ==> lo <= m.temperature.value <= hi
    ensures Scaled(lo, hi, TemperatureCount(ms) as real, TemperatureSum(ms))
    decreases |ms|
  {
    if ms == [] {
      ScaledZero(lo, hi);
    } else {
      SumBetween(ms[1..], lo, hi);
      if ms[0].temperature.Some? {
        assert ms[0] in ms;
        StepBound(lo, hi, ms[0].temperature.value, TemperatureCount(ms[1..]) as real, TemperatureSum(ms[1..]));
      }
    }
  }

  lemma ScaledZero(lo: real, hi: real)
    ensures Scaled(lo, hi, 0.0, 0.0)
  {
  }

  /** The arithmetic of one step of SumBetween. */
  lemma StepBound(lo: real, hi: real, t: real, n: real, sum: real)
    requires lo <= t <= hi && Scaled(lo, hi, n, sum)
    ensures Scaled(lo, hi, 1.0 + n, t + sum)
  {
    assert lo * (1.0 + n) == lo + lo * n;
    assert hi * (1.0 + n) == hi + hi * n;
  }

  lemma MulStrict(a: real, b: real, n: real)
    requires a < b && 0.0 < n
    ensures a * n < b * n
  {
    assert (b - a) * n > 0.0;
  }

  /** The arithmetic of AverageBetween. */
  lemma DivideBounds(lo: real, hi: real, n: real, sum: real, avg: real)
    requires 0.0 < n && avg * n == sum && Scaled(lo, hi, n, sum)
    ensures lo <= avg <= hi
  {
    if avg < lo { MulStrict(avg, lo, n); }
    if avg > hi { MulStrict(hi, avg, n); }
  }

  /** The average lies between the smallest and the largest temperature. */
  lemma AverageBetween(ms: seq<MeasurementRow>, lo: real, hi: real)
    requires forall m :: m in ms && m.temperature.Some? ==> lo <= m.temperature.value <= hi
    ensures AverageTemperature(ms).Some? ==> lo <= AverageTemperature(ms).value <= hi
  {
    if AverageTemperature(ms).Some? {
      SumBetween(ms, lo, hi);
      DivideBounds(lo, hi, TemperatureCount(ms) as real, TemperatureSum(ms), AverageTemperature(ms).value);
    }
  }

  // ---------------------------------------------------------------------------
  // Largest gap between felt and actual temperature

  function Abs(x: real): real { if x < 0.0 then -x else x }

  /** `ABS(feeltemperature - temperature)`, NULL when either is NULL. */
  function Gap(j: Joined): (r: Option<real>)
    ensures r.None? <==> j.m.feeltemperature.None? || j.m.temperature.None?
    ensures r.Some? ==> 0.0 <= r.value
    ensures r.Some? ==> (r.value == j.m.feeltemperature.value - j.m.temperature.value ||
                         r.value == j.m.temperature.value - j.m.feeltemperature.value)
  {
    if j.m.feeltemperature.Some? && j.m.temperature.Some?
    then Some(Abs(j.m.feeltemperature.value - j.m.temperature.value))
    else None
  }

  /** The order of `ORDER BY temp_diff`: a NULL gap is below every number. */
  predicate GapLe(a: Option<real>, b: Option<real>) {
    a.None? || (b.Some? && a.value <= b.value)
  }

  /** Any two gaps are ordered, and the order is transitive. */
  lemma GapLeTotal(a: Option<real>, b: Option<real>)
    ensures GapLe(a, b) || GapLe(b, a)
  {
  }

  lemma GapLeTransitive(a: Option<real>, b: Option<real>, c: Option<real>)
    requires GapLe(a, b) && GapLe(b, c)
    ensures GapLe(a, c)
  {
  }

  /** The first row of `ORDER BY temp_diff DESC`, as `fetchone` returns it;
      among rows with equal gaps, the first in join order is taken. */
  function BiggestGap(js: seq<Joined>): (r: Option<Joined>)
    ensures r.None? <==> js == []
    ensures r.Some? ==> r.value in js && forall j :: j in js ==> GapLe(Gap(j), Gap(r.value))
    ensures r.Some? ==> exists k :: 0 <= k < |js| && js[k] == r.value &&
                               forall i :: 0 <= i < k ==> !GapLe(Gap(js[k]), Gap(js[i]))
    decreases |js|
  {
    if js == [] then None
    else
      match BiggestGap(js[1..])
      case None => Some(js[0])
      case Some(b) => if GapLe(Gap(b), Gap(js[0])) then Some(js[0]) else Some(b)
  }

  /** `findBiggestDiffFeelActual`: the joined row with the largest gap. */
  function BiggestDiffFeelActual(ms: seq<MeasurementRow>, ss: seq<StationRow>): (r: Option<Joined>)
    ensures r.None? <==> forall m, s :: m in ms && s in ss ==> m.stationid.None? || s.stationid != m.stationid
    ensures r.Some? ==> r.value.m in ms && r.value.s in ss
    ensures r.Some? ==> r.value.m.stationid.Some? && r.value.s.stationid == r.value.m.stationid
    ensures r.Some? ==> forall j :: j in Join(ms, ss) ==> GapLe(Gap(j), Gap(r.value))
  {
    JoinEmpty(ms, ss);
    BiggestGap(Join(ms, ss))
  }

  // ---------------------------------------------------------------------------
  // Stations in the North Sea

  const NorthSeaMarker: string := "Noordzee"

  /** `regio LIKE '%Noordzee%'`; a NULL region never matches. */
  predicate InNorthSea(s: StationRow) {
    s.regio.Some? && LikeContains(s.regio.value, NorthSeaMarker)
  }

  lemma InNorthSeaOccurs(s: StationRow)
    ensures InNorthSea(s) <==> s.regio.Some? && exists i :: OccursAt(s.regio.value, NorthSeaMarker, i)
  {
    if s.regio.Some? {
      LikeContainsOccurs(s.regio.value, NorthSeaMarker);
    }
  }

  /** `findStationsInNorthSea`: the stations whose region contains the marker,
      with ASCII letters compared without regard to case, in table order. */
  function StationsInNorthSea(ss: seq<StationRow>): (r: seq<StationRow>)
    ensures forall s :: s in r <==>
      (s in ss && s.regio.Some? && exists i :: OccursAt(s.regio.value, NorthSeaMarker, i))
    ensures |r| <= |ss|
    decreases |ss|
  {
    if ss == [] then []
    else
      var s := ss[0];
      InNorthSeaOccurs(s);
      (if InNorthSea(s) then [s] else []) + StationsInNorthSea(ss[1..])
  }
}
