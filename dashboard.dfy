/** One run of the dashboard script (crop.py, lines 18-73) as a function of
    the two loaded tables and the sidebar choice: the steps in script order,
    the first one that raises ending the run with its exception. */
module Dashboard {
  import opened Text
  import opened Frames
  import opened Preprocess
  import opened YearColumn
  import opened Aggregate
  import opened CropView

  /** `st.sidebar.selectbox(..., crops)` (line 39): the option at the index
      the user picked, or `None` when there are no options. `None` equals no
      cell, so it is modelled as `Missing`, which the filter never matches. */
  function Selectbox(options: seq<Cell>, pick: nat): (c: Cell)
    requires |options| == 0 || pick < |options|
    ensures |options| > 0 ==> c in options
    ensures |options| == 0 ==> c.Missing?
  {
    if |options| == 0 then Missing else options[pick]
  }

  /** The crop table carries the three labels the page reads, each once. */
  predicate CropTableReady(agri: Table) {
    && Lookup(agri.columns, CropLabel).Ok?
    && Lookup(agri.columns, ProductionLabel).Ok?
    && Lookup(agri.columns, YieldLabel).Ok?
  }

  /** The rainfall table has a year column and its label names one column. */
  predicate RainfallReady(rain: Table) {
    ResolveYearColumn(rain).Ok? && Lookup(rain.columns, ResolveYearColumn(rain).value).Ok?
  }

  /** Every label of line 47 names one column exactly when the table is ready. */
  lemma ShownLabelsReady(agri: Table)
    ensures (forall n :: 0 <= n < |ShownLabels| ==> Lookup(agri.columns, ShownLabels[n]).Ok?) <==> CropTableReady(agri)
  {
    assert ShownLabels[0] == CropLabel && ShownLabels[1] == ProductionLabel && ShownLabels[2] == YieldLabel;
  }

  /** The sidebar and the crop overview (lines 37-47). */
  datatype CropSection = CropSection(
    crops: seq<Cell>,  // the sidebar options (line 38)
    info: Table,       // the rows of the chosen crop (line 45)
    shown: Table)      // those rows cut to three columns, written out (line 47)

  function ShowCrop(agri: Table, choice: Cell): (r: Result<CropSection>)
    requires WellFormed(agri)
    ensures r.Ok? <==> CropTableReady(agri)
    ensures Lookup(agri.columns, CropLabel).Err? ==> r == Err(Lookup(agri.columns, CropLabel).error)
    ensures r.Ok? ==> r.value.crops == Catalogue(agri).value && r.value.info == SelectCrop(agri, choice).value
    ensures r.Ok? ==> WellFormed(r.value.info) && r.value.info.columns == agri.columns
    ensures r.Ok? ==> r.value.shown == Project(r.value.info, ShownLabels).value
  {
    var crops :- Catalogue(agri);
    // Line 45 looks up the same label as line 38, so it cannot fail here.
    var info := SelectCrop(agri, choice).value;
    ShownLabelsReady(agri);
    var shown :- Project(info, ShownLabels);
    Ok(CropSection(crops, info, shown))
  }

  /** The table written at line 47 has the three columns in order, one row
      per row of the chosen crop, and every row names that crop. */
  lemma ShownRowsNameChoice(agri: Table, choice: Cell, c: CropSection)
    requires WellFormed(agri) && ShowCrop(agri, choice) == Ok(c)
    ensures c.shown.columns == ShownLabels && |c.shown.rows| == |c.info.rows|
    ensures forall m :: 0 <= m < |c.shown.rows| ==> c.shown.rows[m][0] == choice
  {
    var k := Lookup(agri.columns, CropLabel).value;
    SelectionOnlySelected(agri, choice, k, c.info);
    assert Lookup(c.info.columns, ShownLabels[0]) == Ok(k);
    forall m | 0 <= m < |c.shown.rows|
      ensures c.shown.rows[m][0] == choice
    {
      assert c.shown.rows[m][0] == c.info.rows[m][k];
    }
  }

  /** The rainfall trend (lines 52-65). */
  datatype RainfallSection = RainfallSection(
    yearColumn: string,   // lines 54-60
    summary: Table,       // line 63
    series: seq<string>)  // the charted columns, `columns[1:]` (line 65)

  function ShowRainfall(rain: Table): (r: Result<RainfallSection>)
    requires WellFormed(rain)
    ensures r.Ok? <==> RainfallReady(rain)
    ensures ResolveYearColumn(rain).Err? ==> r == Err(IndexError)
    ensures r.Ok? ==> r.value.yearColumn in rain.columns && Contains(r.value.yearColumn, YearName)
    ensures r.Ok? ==> Lookup(rain.columns, r.value.yearColumn).Ok?
    ensures r.Ok? ==> r.value.summary == GroupMeans(rain, Lookup(rain.columns, r.value.yearColumn).value)
    ensures r.Ok? ==> [r.value.yearColumn] + r.value.series == r.value.summary.columns
  {
    var year :- ResolveYearColumn(rain);
    var summary :- AggregateByYear(rain, year);
    ResolvedIsYearLike(rain);
    assert summary.columns == [year] + summary.columns[1..];
    Ok(RainfallSection(year, summary, summary.columns[1..]))
  }

  /** What one run puts on the page. */
  datatype View = View(
    choice: Cell,
    crop: CropSection,
    rainfall: RainfallSection,
    production: Cell,    // the production figure quoted (line 72)
    productivity: Cell)  // the yield figure quoted (line 73)

  /** The page for the two normalised tables and the sidebar `choice`. */
  function Render(rain: Table, agri: Table, choice: Cell): (r: Result<View>)
    requires WellFormed(rain) && WellFormed(agri)
    ensures r.Ok? ==> StrictlyAscending(r.value.crop.crops) && choice in r.value.crop.crops
    ensures r.Ok? ==> |r.value.crop.shown.rows| > 0
    ensures r.Ok? ==> ShowCrop(agri, choice) == Ok(r.value.crop) && ShowRainfall(rain) == Ok(r.value.rainfall)
    ensures r.Ok? ==> FirstValue(r.value.crop.info, ProductionLabel) == Ok(r.value.production)
    ensures r.Ok? ==> FirstValue(r.value.crop.info, YieldLabel) == Ok(r.value.productivity)
  {
    var crop :- ShowCrop(agri, choice);
    var rainfall :- ShowRainfall(rain);
    var production :- FirstValue(crop.info, ProductionLabel);
    // Once line 72 has read a first row, line 73 reads the same row, and
    // its label is known to be there.
    var productivity := FirstValue(crop.info, YieldLabel).value;
    SelectionNonEmptyIffListed(agri, choice);
    Ok(View(choice, crop, rainfall, production, productivity))
  }

  /** A run succeeds exactly when both tables carry the labels it reads and
      the choice is one of the crops offered. */
  lemma RenderSucceedsIff(rain: Table, agri: Table, choice: Cell)
    requires WellFormed(rain) && WellFormed(agri)
    ensures Render(rain, agri, choice).Ok? <==>
              CropTableReady(agri) && RainfallReady(rain) && choice in Catalogue(agri).value
  {
    assert ShownLabels[0] == CropLabel && ShownLabels[1] == ProductionLabel && ShownLabels[2] == YieldLabel;
    if Lookup(agri.columns, CropLabel).Ok? {
      SelectionNonEmptyIffListed(agri, choice);
    }
  }

  /** `production` and `productivity` are the production and yield of the
      first row, in table order, that carries `choice`. */
  predicate QuotesFirstRow(agri: Table, choice: Cell, production: Cell, productivity: Cell)
    requires WellFormed(agri) && CropTableReady(agri)
  {
    var k, p, y := Lookup(agri.columns, CropLabel).value, Lookup(agri.columns, ProductionLabel).value,
                   Lookup(agri.columns, YieldLabel).value;
    exists i :: 0 <= i < |agri.rows|
      && agri.rows[i][k] == choice
      && (forall i' :: 0 <= i' < i ==> agri.rows[i'][k] != choice)
      && production == agri.rows[i][p]
      && productivity == agri.rows[i][y]
  }

  /** The figures quoted are the production and yield of the first row, in
      table order, of the chosen crop. */
  lemma RenderQuotesFirstRow(rain: Table, agri: Table, choice: Cell, v: View)
    requires WellFormed(rain) && WellFormed(agri) && Render(rain, agri, choice) == Ok(v)
    ensures CropTableReady(agri) && QuotesFirstRow(agri, choice, v.production, v.productivity)
  {
    var k := Lookup(agri.columns, CropLabel).value;
    assert choice in Catalogue(agri).value;
    var i := FirstSelectedRow(agri, choice, k);
    assert v.crop.info == SelectCrop(agri, choice).value;
  }

  /** With a choice the sidebar can produce, a run succeeds exactly when
      both tables carry the labels it reads and some crop is offered; with
      no crop on offer it fails on line 72's `values[0]`. */
  lemma SidebarChoiceRenders(rain: Table, agri: Table, pick: nat)
    requires WellFormed(rain) && WellFormed(agri)
    requires CropTableReady(agri) && RainfallReady(rain)
    requires |Catalogue(agri).value| == 0 || pick < |Catalogue(agri).value|
    ensures Render(rain, agri, Selectbox(Catalogue(agri).value, pick)).Ok? <==> |Catalogue(agri).value| > 0
    ensures |Catalogue(agri).value| == 0 ==>
              Render(rain, agri, Selectbox(Catalogue(agri).value, pick)) == Err(IndexError)
  {
    assert ShownLabels[0] == CropLabel && ShownLabels[1] == ProductionLabel;
    var choice := Selectbox(Catalogue(agri).value, pick);
    RenderSucceedsIff(rain, agri, choice);
    if |Catalogue(agri).value| == 0 {
      UnlistedCropHasNoFigures(agri, choice);
    }
  }

  /** An error in the crop table's `Crop` column ends the run before the
      rainfall table is looked at. */
  lemma CropErrorsComeFirst(rain: Table, other: Table, agri: Table, choice: Cell)
    requires WellFormed(rain) && WellFormed(other) && WellFormed(agri)
    requires Lookup(agri.columns, CropLabel).Err?
    ensures Render(rain, agri, choice) == Err(Lookup(agri.columns, CropLabel).error)
    ensures Render(rain, agri, choice) == Render(other, agri, choice)
  {
  }

  /** With the crop table ready, a rainfall table with no column containing
      "year" fails with `IndexError` (line 60), whatever the choice. */
  lemma NoYearColumnFails(rain: Table, agri: Table, choice: Cell)
    requires WellFormed(rain) && WellFormed(agri) && CropTableReady(agri)
    requires forall c :: c in rain.columns ==> !Contains(c, YearName)
    ensures Render(rain, agri, choice) == Err(IndexError)
  {
    assert ShowCrop(agri, choice).Ok?;
    assert ResolveYearColumn(rain).Err?;
    assert ShowRainfall(rain) == Err(IndexError);
  }

  /** The whole script: load, normalise the headers in place (lines 18-26),
      then render. */
  method RunScript(rainFile: Table, agriFile: Table, choice: Cell) returns (r: Result<View>)
    requires WellFormed(rainFile) && WellFormed(agriFile)
    ensures r == Render(NormalizedRainfall(rainFile), NormalizedCrop(agriFile), choice)
  {
    var rain := new DataFrame(rainFile);
    var agri := new DataFrame(agriFile);
    PreprocessFrames(rain, agri);
    r := Render(rain.Snapshot(), agri.Snapshot(), choice);
  }
}
