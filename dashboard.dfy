/**
 One run of the dashboard script: filter the table by the two selections,
 draw the region and monthly summaries from the filtered view, and colour its
 plastic types for the map. The selections and the shuffled palette are
 inputs; loading, widgets and rendering are outside the model.
 */
module Dashboard {
  import opened Observations
  import opened Filter
  import opened GroupSum
  import opened Summaries
  import opened Colors

  /** What one run computes for the three views. */
  datatype Views = Views(
    filtered: seq<Row>,
    regionSummary: seq<(string, real)>,
    timeSummary: seq<(Date, real)>,
    coloring: ColorResult)

  function Run(table: seq<Row>, selectedRegions: set<string>, selectedTypes: set<string>, palette: seq<string>): Views {
    var filtered := FilterRows(table, selectedRegions, selectedTypes);
    Views(filtered, RegionSummary(filtered), MonthlySummary(filtered), Coloring(filtered, palette))
  }

  /** Nothing selected in either dimension: every view is empty and no colour is drawn. */
  lemma EmptySelectionEmptiesViews(table: seq<Row>, selectedRegions: set<string>, selectedTypes: set<string>, palette: seq<string>)
    requires selectedRegions == {} || selectedTypes == {}
    ensures var v := Run(table, selectedRegions, selectedTypes, palette);
      && v.filtered == []
      && v.regionSummary == []
      && v.timeSummary == []
      && v.coloring == Colored(BASE_COLORS, palette)
  {
    EmptySelectionFiltersAll(table, selectedRegions, selectedTypes);
    assert UniqueTypes([]) == [];
  }

  /** Both summaries account for the weight of every filtered row exactly once. */
  lemma SummariesConserveWeight(table: seq<Row>, selectedRegions: set<string>, selectedTypes: set<string>, palette: seq<string>)
    ensures var v := Run(table, selectedRegions, selectedTypes, palette);
      && SumTotals(v.regionSummary) == TotalWeight(v.filtered)
      && SumTotals(v.timeSummary) == TotalWeight(v.filtered)
  {
    var v := Run(table, selectedRegions, selectedTypes, palette);
    RegionSummaryCorrect(v.filtered);
    MonthlySummaryTotals(v.filtered);
  }

  /**
   With enough palette colours for the new types, the colour loop completes,
   keeps the five predefined colours and every marker of the filtered view
   takes its colour from the map rather than the gray fallback.
   */
  lemma EnoughColorsColorEveryMarker(table: seq<Row>, selectedRegions: set<string>, selectedTypes: set<string>, palette: seq<string>)
    requires |NewTypes(FilterRows(table, selectedRegions, selectedTypes))| <= |palette|
    ensures var v := Run(table, selectedRegions, selectedTypes, palette);
      && v.coloring.Colored?
      && (forall k :: k in BASE_COLORS ==> k in v.coloring.colorMap && v.coloring.colorMap[k] == BASE_COLORS[k])
      && (forall i :: 0 <= i < |v.filtered| ==>
            v.filtered[i].plasticType in v.coloring.colorMap
            && MarkerColor(v.coloring.colorMap, v.filtered[i].plasticType) == v.coloring.colorMap[v.filtered[i].plasticType])
  {
    var filtered := FilterRows(table, selectedRegions, selectedTypes);
    ColoringSucceedsIff(filtered, palette);
    ColoringKeepsBaseAndCoversTypes(filtered, palette);
    MarkersNeverFallBack(filtered, palette);
  }

  // ---------------------------------------------------------------- worked scenario

  function Obs(region: string, plasticType: string, weightKg: real, date: Date): Row {
    Row(region, plasticType, weightKg, date, 0.0, 0.0, 0.0)
  }

  /**
   Three rows; selecting region A and both types keeps the first two, the
   region summary is A: 15 and the time summary is 2024-01: 15 (February is
   absent since its only row is in region B).
   */
  lemma ScenarioRegionA()
    ensures var a1 := Obs("A", "bottle", 10.0, Date(2024, 1, 5));
      var a2 := Obs("A", "net", 5.0, Date(2024, 1, 20));
      var b := Obs("B", "bottle", 7.0, Date(2024, 2, 1));
      var v := Run([a1, a2, b], {"A"}, {"bottle", "net"}, []);
      && v.filtered == [a1, a2]
      && v.regionSummary == [("A", 15.0)]
      && v.timeSummary == [(Date(2024, 1, 1), 15.0)]
  {
    var a1 := Obs("A", "bottle", 10.0, Date(2024, 1, 5));
    var a2 := Obs("A", "net", 5.0, Date(2024, 1, 20));
    var b := Obs("B", "bottle", 7.0, Date(2024, 2, 1));
    var table := [a1, a2, b];
    var regions, types := {"A"}, {"bottle", "net"};
    assert table[1..] == [a2, b] && [a2, b][1..] == [b] && [b][1..] == [];
    assert "B" !in regions;
    assert FilterRows([b], regions, types) == [];
    assert FilterRows([a2, b], regions, types) == [a2];
    assert FilterRows(table, regions, types) == [a1, a2];
    assert [a1, a2][1..] == [a2] && [a2][1..] == [];
    assert RegionSummary([]) == [];
    assert RegionSummary([a2]) == [("A", 5.0)];
    assert RegionSummary([a1, a2]) == [("A", 15.0)];
    assert MonthlyTotals([]) == [];
    assert MonthOf(a2) == YearMonth(2024, 1) && MonthOf(a1) == YearMonth(2024, 1);
    assert MonthlyTotals([a2]) == [(YearMonth(2024, 1), 5.0)];
    assert MonthlyTotals([a1, a2]) == [(YearMonth(2024, 1), 15.0)];
  }

  /** A type outside the five gets the last palette colour, and the palette shrinks by one. */
  lemma ScenarioNewType()
    ensures var row := Obs("A", "rope", 1.0, Date(2024, 3, 9));
      Coloring([row], ["teal", "coral"]) == Colored(BASE_COLORS["rope" := "coral"], ["teal"])
  {
    var row := Obs("A", "rope", 1.0, Date(2024, 3, 9));
    assert [row][..0] == [];
    assert UniqueTypes([row]) == ["rope"];
    assert ["rope"][1..] == [];
    assert "rope" !in BASE_COLORS;
  }
}
