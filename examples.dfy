/**
 * Small snapshots on which the queries' answers are worked out: the average
 * of three temperatures, the highest temperature shared by two stations, and
 * the region filter, including its indifference to ASCII case.
 */
module Examples {
  import opened Wrappers
  import opened Rows
  import opened Queries

  function Measurement(id: int, temperature: Option<real>, station: int): MeasurementRow {
    MeasurementRow(id, None, temperature, None, None, None, None, None, None, None, Some(station))
  }

  function Station(id: int, regio: string): StationRow {
    StationRow(Some(id), None, None, None, Some(regio))
  }

  lemma AverageOfThree()
    ensures AverageTemperature([Measurement(0, Some(10.0), 1), Measurement(1, Some(20.0), 2),
                                Measurement(2, Some(30.0), 3)]) == Some(20.0)
  {
  }

  /** NULL temperatures are skipped, and with none left the average is NULL, not 0. */
  lemma AverageSkipsNull()
    ensures AverageTemperature([Measurement(0, None, 1), Measurement(1, Some(4.0), 2)]) == Some(4.0)
    ensures AverageTemperature([Measurement(0, None, 1)]) == None
  {
  }

  /** Stations A: 15, B: 20 and C: 20 give exactly B and C. */
  lemma HighestKeepsTies()
    ensures
      var ms := [Measurement(0, Some(15.0), 1), Measurement(1, Some(20.0), 2), Measurement(2, Some(20.0), 3)];
      var ss := [Station(1, "A"), Station(2, "B"), Station(3, "C")];
      forall j :: j in HighestTemperature(ms, ss) <==>
        j == Joined(ms[1], ss[1]) || j == Joined(ms[2], ss[2])
  {
    var ms := [Measurement(0, Some(15.0), 1), Measurement(1, Some(20.0), 2), Measurement(2, Some(20.0), 3)];
    var ss := [Station(1, "A"), Station(2, "B"), Station(3, "C")];
    assert MaxTemperature(ms) == Some(20.0);
  }

  /** Of the regions "Waddenzee", "Noordzee kust" and "Maas" only the second
      is in the North Sea. */
  lemma NorthSeaPicksTheMarker()
    ensures
      var ss := [Station(1, "Waddenzee"), Station(2, "Noordzee kust"), Station(3, "Maas")];
      forall s :: s in StationsInNorthSea(ss) <==> s == Station(2, "Noordzee kust")
  {
    var wadden, coast := "Waddenzee", "Noordzee kust";
    assert Text.OccursAt(coast, NorthSeaMarker, 0);
    forall i ensures !Text.OccursAt(wadden, NorthSeaMarker, i) {
      if i == 0 {
        assert Text.FoldAscii(wadden[0]) != Text.FoldAscii(NorthSeaMarker[0]);
      } else if i == 1 {
        assert Text.FoldAscii(wadden[1 + 0]) != Text.FoldAscii(NorthSeaMarker[0]);
      }
    }
  }

  /** LIKE ignores ASCII case: an upper-case region matches too. */
  lemma NorthSeaIgnoresCase()
    ensures StationsInNorthSea([Station(1, "NOORDZEE")]) == [Station(1, "NOORDZEE")]
  {
    InNorthSeaOccurs(Station(1, "NOORDZEE"));
    assert Text.OccursAt("NOORDZEE", NorthSeaMarker, 0);
  }
}
