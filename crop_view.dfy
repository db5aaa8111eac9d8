/** The crop side of the dashboard: the catalogue offered in the sidebar
    (crop.py, line 38), the rows of the chosen crop (line 45), the three
    columns shown for them (line 47) and the first production and yield
    figures quoted in the insights text (lines 72-73). */
module CropView {
  import opened Frames

  const CropLabel: string := "Crop"
  const ProductionLabel: string := "Production (Lakh Tons)"
  const YieldLabel: string := "Yield (kg/ha)"
  const ShownLabels: seq<string> := [CropLabel, ProductionLabel, YieldLabel]

  /** Line 38, `sorted(agri_df["Crop"].dropna().unique())`: every crop name
      the table holds, once each, ascending. */
  function Catalogue(t: Table): (r: Result<seq<Cell>>)
    requires WellFormed(t)
    ensures r.Err? <==> Lookup(t.columns, CropLabel).Err?
    ensures r.Err? ==> r.error == (if CropLabel in t.columns then DuplicateLabel(CropLabel) else KeyError(CropLabel))
    ensures r.Ok? ==> StrictlyAscending(r.value)
    ensures r.Ok? ==> forall i, j :: 0 <= i < j < |r.value| ==> r.value[i] != r.value[j]
    ensures r.Ok? ==> forall c :: c in r.value <==>
              !c.Missing? && exists i :: 0 <= i < |t.rows| && t.rows[i][Lookup(t.columns, CropLabel).value] == c
  {
    var k :- Lookup(t.columns, CropLabel);
    var crops := SortedUnique(Column(t, k));
    AscendingDistinct(crops);
    forall c
      ensures c in crops <==> !c.Missing? && exists i :: 0 <= i < |t.rows| && t.rows[i][k] == c
    {
      InColumn(t, k, c);
    }
    Ok(crops)
  }

  /** The boolean mask `agri_df["Crop"] == selected` as the indices where it
      is true, in row order. The comparison is exact and case-sensitive, and
      NaN equals nothing. */
  function MatchingRows(t: Table, k: nat, selected: Cell): (r: seq<nat>)
    requires WellFormed(t) && k < |t.columns|
    ensures forall m :: 0 <= m < |r| ==> r[m] < |t.rows|
    ensures forall m, n :: 0 <= m < n < |r| ==> r[m] < r[n]
    ensures forall i :: 0 <= i < |t.rows| ==> (i in r <==> !selected.Missing? && t.rows[i][k] == selected)
  {
    if selected.Missing? then [] else Positions(Column(t, k), selected)
  }

  /** Line 45, `agri_df[agri_df["Crop"] == selected]`: the whole rows of the
      selected crop, in their original order, under the original header. */
  function SelectCrop(t: Table, selected: Cell): (r: Result<Table>)
    requires WellFormed(t)
    ensures r.Err? <==> Lookup(t.columns, CropLabel).Err?
    ensures r.Ok? ==> WellFormed(r.value) && r.value.columns == t.columns && r.value.kinds == t.kinds
    ensures r.Ok? ==> var idx := MatchingRows(t, Lookup(t.columns, CropLabel).value, selected);
                      |r.value.rows| == |idx| && forall m :: 0 <= m < |idx| ==> r.value.rows[m] == t.rows[idx[m]]
  {
    var k :- Lookup(t.columns, CropLabel);
    var idx := MatchingRows(t, k, selected);
    Ok(Table(t.columns, t.kinds, seq(|idx|, m requires 0 <= m < |idx| => t.rows[idx[m]])))
  }

  /** Every kept row carries the selected crop, which is not NaN. */
  lemma SelectionOnlySelected(t: Table, selected: Cell, k: nat, r: Table)
    requires WellFormed(t) && Lookup(t.columns, CropLabel) == Ok(k)
    requires SelectCrop(t, selected) == Ok(r)
    ensures forall m :: 0 <= m < |r.rows| ==> r.rows[m][k] == selected && !selected.Missing?
  {
    var idx := MatchingRows(t, k, selected);
    forall m | 0 <= m < |r.rows|
      ensures r.rows[m][k] == selected && !selected.Missing?
    {
      assert idx[m] in idx;
    }
  }

  /** Every input row that carries the selected crop is kept. */
  lemma SelectionAllSelected(t: Table, selected: Cell, k: nat, r: Table)
    requires WellFormed(t) && Lookup(t.columns, CropLabel) == Ok(k)
    requires SelectCrop(t, selected) == Ok(r)
    ensures forall i :: 0 <= i < |t.rows| && t.rows[i][k] == selected && !selected.Missing? ==>
              exists m :: 0 <= m < |r.rows| && r.rows[m] == t.rows[i]
  {
    var idx := MatchingRows(t, k, selected);
    forall i | 0 <= i < |t.rows| && t.rows[i][k] == selected && !selected.Missing?
      ensures exists m :: 0 <= m < |r.rows| && r.rows[m] == t.rows[i]
    {
      assert i in idx;
      var m :| 0 <= m < |idx| && idx[m] == i;
      assert r.rows[m] == t.rows[i];
    }
  }

  /** The selection is the subsequence of the input rows that carry the
      selected crop: it picks them at strictly increasing row indices, so the
      kept rows keep their relative order, and it misses none of them. */
  lemma SelectionKeepsOrder(t: Table, selected: Cell, k: nat, r: Table) returns (idx: seq<nat>)
    requires WellFormed(t) && Lookup(t.columns, CropLabel) == Ok(k)
    requires SelectCrop(t, selected) == Ok(r)
    ensures |idx| == |r.rows|
    ensures forall m :: 0 <= m < |idx| ==> idx[m] < |t.rows| && r.rows[m] == t.rows[idx[m]]
    ensures forall m :: 0 <= m < |idx| ==> t.rows[idx[m]][k] == selected
    ensures forall m, n :: 0 <= m < n < |idx| ==> idx[m] < idx[n]
    ensures forall i :: 0 <= i < |t.rows| && t.rows[i][k] == selected && !selected.Missing? ==> i in idx
  {
    idx := MatchingRows(t, k, selected);
    assert forall m :: 0 <= m < |idx| ==> idx[m] in idx;
  }

  /** The selection is non-empty exactly when the selected value is one the
      catalogue offers. */
  lemma SelectionNonEmptyIffListed(t: Table, selected: Cell)
    requires WellFormed(t) && Lookup(t.columns, CropLabel).Ok?
    ensures |SelectCrop(t, selected).value.rows| > 0 <==> selected in Catalogue(t).value
  {
    var k := Lookup(t.columns, CropLabel).value;
    var r := SelectCrop(t, selected).value;
    SelectionOnlySelected(t, selected, k, r);
    SelectionAllSelected(t, selected, k, r);
    var crops := Catalogue(t).value;
    if |r.rows| > 0 {
      assert r.rows[0][k] == selected && !selected.Missing?;
      assert selected in crops;
    }
    if selected in crops {
      var i :| 0 <= i < |t.rows| && t.rows[i][k] == selected;
      assert exists m :: 0 <= m < |r.rows| && r.rows[m] == t.rows[i];
    }
  }

  /** The column indices of `labels`, looked up one by one. */
  function LookupAll(columns: seq<string>, labels: seq<string>): (r: Result<seq<nat>>)
    ensures r.Ok? <==> forall n :: 0 <= n < |labels| ==> Lookup(columns, labels[n]).Ok?
    ensures r.Ok? ==> |r.value| == |labels|
    ensures r.Ok? ==> forall n :: 0 <= n < |labels| ==> Lookup(columns, labels[n]) == Ok(r.value[n])
    decreases |labels|
  {
    if |labels| == 0 then Ok([])
    else
      var first :- Lookup(columns, labels[0]);
      var rest :- LookupAll(columns, labels[1..]);
      assert forall n :: 1 <= n < |labels| ==> labels[n] == labels[1..][n - 1];
      Ok([first] + rest)
  }

  /** One row cut down to the columns at `idx`. */
  function ProjectRow(row: seq<Cell>, idx: seq<nat>): (r: seq<Cell>)
    requires forall n :: 0 <= n < |idx| ==> idx[n] < |row|
    ensures |r| == |idx| && forall n :: 0 <= n < |idx| ==> r[n] == row[idx[n]]
  {
    seq(|idx|, n requires 0 <= n < |idx| => row[idx[n]])
  }

  /** Line 47, `crop_info[labels]`: the same rows cut down to the named
      columns, in the order named. */
  function Project(t: Table, labels: seq<string>): (r: Result<Table>)
    requires WellFormed(t)
    ensures r.Ok? <==> forall n :: 0 <= n < |labels| ==> Lookup(t.columns, labels[n]).Ok?
    ensures r.Ok? ==> WellFormed(r.value) && r.value.columns == labels && |r.value.rows| == |t.rows|
    ensures r.Ok? ==> forall m, n :: 0 <= m < |t.rows| && 0 <= n < |labels| ==>
              r.value.rows[m][n] == t.rows[m][Lookup(t.columns, labels[n]).value]
  {
    var idx :- LookupAll(t.columns, labels);
    var kinds := seq(|idx|, n requires 0 <= n < |idx| => t.kinds[idx[n]]);
    var rows := seq(|t.rows|, m requires 0 <= m < |t.rows| => ProjectRow(t.rows[m], idx));
    Ok(Table(labels, kinds, rows))
  }

  /** Lines 72-73, `crop_info[label].values[0]`: the label's cell in the
      first row; `IndexError` when there is no row. */
  function FirstValue(t: Table, name: string): (r: Result<Cell>)
    requires WellFormed(t)
    ensures r.Ok? <==> Lookup(t.columns, name).Ok? && |t.rows| > 0
    ensures r.Ok? ==> r.value == t.rows[0][Lookup(t.columns, name).value]
    ensures Lookup(t.columns, name).Ok? && |t.rows| == 0 ==> r == Err(IndexError)
  {
    var j :- Lookup(t.columns, name);
    if |t.rows| == 0 then Err(IndexError) else Ok(t.rows[0][j])
  }

  /** For a crop the catalogue offers, the selection's first row is the
      table's first row of that crop. */
  lemma FirstSelectedRow(t: Table, selected: Cell, k: nat) returns (i: nat)
    requires WellFormed(t) && Lookup(t.columns, CropLabel) == Ok(k)
    requires selected in Catalogue(t).value
    ensures i < |t.rows| && t.rows[i][k] == selected
    ensures forall i' :: 0 <= i' < i ==> t.rows[i'][k] != selected
    ensures SelectCrop(t, selected).Ok? && |SelectCrop(t, selected).value.rows| > 0
    ensures SelectCrop(t, selected).value.rows[0] == t.rows[i]
  {
    SelectionNonEmptyIffListed(t, selected);
    var idx := MatchingRows(t, k, selected);
    i := idx[0];
    assert forall i' :: 0 <= i' < i && t.rows[i'][k] == selected ==> i' in idx;
  }

  /** Every crop the sidebar can offer has a production and a yield figure to
      quote: the `values[0]` reads of lines 72-73 do not fail, and they read
      the first row of that crop in table order. */
  lemma ListedCropHasFigures(t: Table, selected: Cell)
    requires WellFormed(t) && Catalogue(t).Ok? && selected in Catalogue(t).value
    requires Lookup(t.columns, ProductionLabel).Ok? && Lookup(t.columns, YieldLabel).Ok?
    ensures SelectCrop(t, selected).Ok?
    ensures FirstValue(SelectCrop(t, selected).value, ProductionLabel).Ok?
    ensures FirstValue(SelectCrop(t, selected).value, YieldLabel).Ok?
    ensures exists i :: 0 <= i < |t.rows|
                     && t.rows[i][Lookup(t.columns, CropLabel).value] == selected
                     && FirstValue(SelectCrop(t, selected).value, ProductionLabel).value
                        == t.rows[i][Lookup(t.columns, ProductionLabel).value]
                     && FirstValue(SelectCrop(t, selected).value, YieldLabel).value
                        == t.rows[i][Lookup(t.columns, YieldLabel).value]
                     && (forall i' :: 0 <= i' < i ==> t.rows[i'][Lookup(t.columns, CropLabel).value] != selected)
  {
    var k := Lookup(t.columns, CropLabel).value;
    var i := FirstSelectedRow(t, selected, k);
  }

  /** A value the catalogue does not offer (it is how the sidebar's `None`
      for an empty catalogue compares too) selects no row, so the first
      `values[0]` read raises `IndexError`. */
  lemma UnlistedCropHasNoFigures(t: Table, selected: Cell)
    requires WellFormed(t) && Catalogue(t).Ok? && selected !in Catalogue(t).value
    requires Lookup(t.columns, ProductionLabel).Ok?
    ensures SelectCrop(t, selected).Ok?
    ensures FirstValue(SelectCrop(t, selected).value, ProductionLabel) == Err(IndexError)
  {
    SelectionNonEmptyIffListed(t, selected);
  }
}
