/** Small worked tables run through the model: the yearly rainfall means of
    three readings, and the crop overview of one 2023-24 crop row, including
    the exact, case-sensitive match on the crop name. */
module Scenarios {
  import opened Text
  import opened Frames
  import opened Preprocess
  import opened Aggregate
  import opened CropView

  /** Three rainfall readings, two of them for 1901. */
  const Readings: Table := Table(
    ["year", "region", "rainfall"],
    [Numeric, Textual, Numeric],
    [[Num(1901.0), Str("A"), Num(100.0)],
     [Num(1901.0), Str("B"), Num(200.0)],
     [Num(1902.0), Str("A"), Num(150.0)]])

  /** The 1901 readings, in row order. */
  lemma EarlyGroup()
    ensures GroupCells(Readings.rows, 0, Num(1901.0), 2) == [Num(100.0), Num(200.0)]
  {
    var rows := Readings.rows;
    var r1, r2 := rows[..1], rows[..2];
    assert r1[..0] == [] && r2[..1] == r1 && rows[..2] == r2;
    assert GroupCells(r1, 0, Num(1901.0), 2) == [Num(100.0)];
    assert GroupCells(r2, 0, Num(1901.0), 2) == [Num(100.0), Num(200.0)];
  }

  /** The 1902 reading. */
  lemma LateGroup()
    ensures GroupCells(Readings.rows, 0, Num(1902.0), 2) == [Num(150.0)]
  {
    var rows := Readings.rows;
    var r1, r2 := rows[..1], rows[..2];
    assert r1[..0] == [] && r2[..1] == r1 && rows[..2] == r2;
    assert GroupCells(r1, 0, Num(1902.0), 2) == [];
    assert GroupCells(r2, 0, Num(1902.0), 2) == [];
  }

  /** The numbers of two readings, in order. */
  lemma EarlyNumbers()
    ensures Numbers([Num(100.0), Num(200.0)]) == [100.0, 200.0]
  {
    var two := [Num(100.0), Num(200.0)];
    assert two[..1] == [Num(100.0)];
    assert [Num(100.0)][..0] == [];
    assert Numbers([Num(100.0)]) == [100.0];
  }

  /** 100 plus 200. */
  lemma EarlySum()
    ensures Sum([100.0, 200.0]) == 300.0
  {
    assert [100.0, 200.0][..1] == [100.0];
    assert [100.0][..0] == [];
    assert Sum([100.0]) == 100.0;
  }

  /** The mean of 100 and 200 is 150. */
  lemma EarlyMean()
    ensures Mean([Num(100.0), Num(200.0)]) == Num(150.0)
  {
    EarlyNumbers();
    EarlySum();
    assert Average([100.0, 200.0]) == 150.0;
  }

  /** The mean of 150 alone is 150. */
  lemma LateMean()
    ensures Mean([Num(150.0)]) == Num(150.0)
  {
    assert [Num(150.0)][..0] == [];
    assert Numbers([Num(150.0)]) == [150.0];
    assert [150.0][..0] == [];
    assert Sum([150.0]) == 150.0;
    assert Average([150.0]) == 150.0;
  }

  /** The distinct years, ascending. */
  lemma ReadingYears()
    ensures WellFormed(Readings)
    ensures SortedUnique(Column(Readings, 0)) == [Num(1901.0), Num(1902.0)]
  {
    assert WellFormed(Readings);
    var expected := [Num(1901.0), Num(1902.0)];
    assert Column(Readings, 0) == [Num(1901.0), Num(1901.0), Num(1902.0)];
    assert StrictlyAscending(expected);
    AscendingUnique(SortedUnique(Column(Readings, 0)), expected);
  }

  /** `numeric_only=True` keeps the rainfall column alone. */
  lemma ReadingsNumeric()
    ensures NumericColumns(Readings.kinds, 0) == [2]
  {
    assert NumericColumns([Numeric], 0) == [];
    assert Readings.kinds[..2] == [Numeric, Textual] && [Numeric, Textual][..1] == [Numeric];
    assert NumericColumns([Numeric, Textual], 0) == [];
  }

  /** The summary row of 1901. */
  lemma EarlyRow()
    ensures WellFormed(Readings)
    ensures SummaryRow(Readings, 0, [2], Num(1901.0)) == [Num(1901.0), Num(150.0)]
  {
    assert WellFormed(Readings);
    var row := SummaryRow(Readings, 0, [2], Num(1901.0));
    assert |row| == 2 && row[0] == Num(1901.0);
    assert row[1] == Num(150.0) by {
      EarlyGroup();
      EarlyMean();
    }
  }

  /** The summary row of 1902. */
  lemma LateRow()
    ensures WellFormed(Readings)
    ensures SummaryRow(Readings, 0, [2], Num(1902.0)) == [Num(1902.0), Num(150.0)]
  {
    assert WellFormed(Readings);
    var row := SummaryRow(Readings, 0, [2], Num(1902.0));
    assert |row| == 2 && row[0] == Num(1902.0);
    assert row[1] == Num(150.0) by {
      LateGroup();
      LateMean();
    }
  }

  const ReadingsSummary: Table := Table(
    ["year", "rainfall"],
    [Numeric, Numeric],
    [[Num(1901.0), Num(150.0)],
     [Num(1902.0), Num(150.0)]])

  /** The labels of the year column and the rainfall column. */
  lemma ReadingsHeader()
    ensures WellFormed(Readings)
    ensures SummaryHeader(Readings, 0, [2]) == ["year", "rainfall"]
  {
    assert WellFormed(Readings);
    var h := SummaryHeader(Readings, 0, [2]);
    assert h == [h[0], h[1]];
  }

  /** The summary's header: the year, then the one numeric column. */
  lemma ReadingsSummaryColumns(t: Table)
    requires t == Readings
    ensures WellFormed(t)
    ensures GroupMeans(t, 0).columns == ReadingsSummary.columns
  {
    ReadingsNumeric();
    ReadingsHeader();
  }

  /** The summary's dtypes: the year's, then numeric. */
  lemma ReadingsSummaryKinds(t: Table)
    requires t == Readings
    ensures WellFormed(t)
    ensures GroupMeans(t, 0).kinds == ReadingsSummary.kinds
  {
    assert WellFormed(t);
    ReadingsNumeric();
  }

  /** One summary row per distinct year. */
  lemma ReadingsSummaryCount(t: Table)
    requires t == Readings
    ensures WellFormed(t)
    ensures |GroupMeans(t, 0).rows| == 2
  {
    ReadingYears();
  }

  /** The first summary row is 1901's. */
  lemma ReadingsSummaryFirst(t: Table)
    requires t == Readings
    ensures WellFormed(t)
    ensures |GroupMeans(t, 0).rows| > 0 && GroupMeans(t, 0).rows[0] == ReadingsSummary.rows[0]
  {
    ReadingYears();
    ReadingsNumeric();
    EarlyRow();
  }

  /** The second summary row is 1902's. */
  lemma ReadingsSummarySecond(t: Table)
    requires t == Readings
    ensures WellFormed(t)
    ensures |GroupMeans(t, 0).rows| > 1 && GroupMeans(t, 0).rows[1] == ReadingsSummary.rows[1]
  {
    ReadingYears();
    ReadingsNumeric();
    LateRow();
  }

  lemma TwoRows(rows: seq<seq<Cell>>, expected: seq<seq<Cell>>)
    requires |rows| == 2 && |expected| == 2
    requires rows[0] == expected[0] && rows[1] == expected[1]
    ensures rows == expected
  {
  }

  /** The summary's rows: one per year, in year order. */
  lemma ReadingsSummaryRows(t: Table)
    requires t == Readings
    ensures WellFormed(t)
    ensures GroupMeans(t, 0).rows == ReadingsSummary.rows
  {
    ReadingsSummaryCount(t);
    ReadingsSummaryFirst(t);
    ReadingsSummarySecond(t);
    TwoRows(GroupMeans(t, 0).rows, ReadingsSummary.rows);
  }

  /** Grouping on column 0 gives the two yearly rows. */
  lemma ReadingsGroupMeans()
    ensures WellFormed(Readings)
    ensures GroupMeans(Readings, 0) == ReadingsSummary
  {
    ReadingsSummaryColumns(Readings);
    ReadingsSummaryKinds(Readings);
    ReadingsSummaryRows(Readings);
  }

  /** Grouping the readings by year gives one row per year, the text column
      dropped and the rainfall averaged: 1901 has mean 150, 1902 has 150. */
  lemma ReadingsByYear()
    ensures WellFormed(Readings)
    ensures AggregateByYear(Readings, "year") == Ok(ReadingsSummary)
  {
    ReadingsGroupMeans();
    LookupFindsUnique(Readings.columns, 0);
  }

  /** One row of the 2023-24 crop file, under its verbose headers. */
  const WheatFile: Table := Table(
    ["Crop", "Production (Lakh Tons) - 2023-24", "Productivity (Yield in kg/ha) - 2023-24"],
    [Textual, Numeric, Numeric],
    [[Str("Wheat"), Num(1100.25), Num(3200.5)]])

  /** The normalised crop table: the verbose headers renamed, the data as loaded. */
  const Wheat: Table := Table(
    [CropLabel, ProductionLabel, YieldLabel],
    [Textual, Numeric, Numeric],
    [[Str("Wheat"), Num(1100.25), Num(3200.5)]])

  /** Line 19 leaves the file's headers as they are: none has whitespace at
      either end. */
  lemma WheatHeadersStripped()
    ensures CropHeaders(WheatFile.columns) == WheatFile.columns
  {
    var c := WheatFile.columns;
    StripKeepsStripped(c[0]);
    StripKeepsStripped(c[1]);
    StripKeepsStripped(c[2]);
    var h := CropHeaders(c);
    assert h[0] == c[0] && h[1] == c[1] && h[2] == c[2];
  }

  /** Lines 22-26 turn the file's headers into the three short labels. */
  lemma WheatHeadersRenamed()
    ensures Rename(WheatFile.columns, CropRenames) == Wheat.columns
  {
    var c := WheatFile.columns;
    CropRenamesAt(c, 0);
    CropRenamesAt(c, 1);
    CropRenamesAt(c, 2);
  }

  /** The file as the dashboard sees it after lines 19-26. */
  lemma WheatNormalized()
    ensures NormalizedCrop(WheatFile) == Wheat
  {
    WheatHeadersStripped();
    WheatHeadersRenamed();
  }

  /** Each of the three labels names exactly one column of the normalised table. */
  lemma WheatLabels()
    ensures WellFormed(Wheat)
    ensures Lookup(Wheat.columns, CropLabel) == Ok(0)
    ensures Lookup(Wheat.columns, ProductionLabel) == Ok(1)
    ensures Lookup(Wheat.columns, YieldLabel) == Ok(2)
  {
    assert WellFormed(Wheat);
    LookupFindsUnique(Wheat.columns, 0);
    LookupFindsUnique(Wheat.columns, 1);
    LookupFindsUnique(Wheat.columns, 2);
  }

  /** "Wheat" matches the one row; "wheat" matches none. */
  lemma WheatMatches()
    ensures WellFormed(Wheat)
    ensures MatchingRows(Wheat, 0, Str("Wheat")) == [0]
    ensures MatchingRows(Wheat, 0, Str("wheat")) == []
  {
    assert WellFormed(Wheat);
    assert Column(Wheat, 0) == [Str("Wheat")];
    assert [Str("Wheat")][..0] == [];
    assert Positions([Str("Wheat")], Str("Wheat")) == [0];
    assert Str("wheat") != Str("Wheat");
    assert Positions([Str("Wheat")], Str("wheat")) == [];
  }

  /** Choosing "Wheat" keeps the whole one-row table. */
  lemma WheatSelection()
    ensures WellFormed(Wheat)
    ensures SelectCrop(Wheat, Str("Wheat")) == Ok(Wheat)
  {
    WheatLabels();
    WheatMatches();
    var r := SelectCrop(Wheat, Str("Wheat")).value;
    assert r.rows == [Wheat.rows[0]];
  }

  /** Choosing "wheat" keeps the header and no row. */
  lemma LowerCaseWheatSelection()
    ensures WellFormed(Wheat)
    ensures SelectCrop(Wheat, Str("wheat")) == Ok(Table(Wheat.columns, Wheat.kinds, []))
  {
    WheatLabels();
    WheatMatches();
  }

  /** Choosing "Wheat" selects the one row and quotes its production and
      yield; choosing "wheat" selects nothing, so the first `values[0]` read
      raises `IndexError`: the match on the crop name is exact. */
  lemma WheatOverview()
    ensures WellFormed(Wheat)
    ensures FirstValue(SelectCrop(Wheat, Str("Wheat")).value, ProductionLabel) == Ok(Num(1100.25))
    ensures FirstValue(SelectCrop(Wheat, Str("Wheat")).value, YieldLabel) == Ok(Num(3200.5))
    ensures FirstValue(SelectCrop(Wheat, Str("wheat")).value, ProductionLabel) == Err(IndexError)
  {
    WheatLabels();
    WheatSelection();
    LowerCaseWheatSelection();
  }
}
