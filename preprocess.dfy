/** Header normalisation, run once on each freshly loaded table before the
    dashboard touches it: the rainfall headers are stripped and lower-cased,
    the crop headers are only stripped and then renamed from the verbose
    2023-24 labels to short canonical ones. The functions say what the new
    headers are; the `DataFrame` class carries them out in place, as the
    script does by assigning `df.columns` and calling `rename(inplace=True)`. */
module Preprocess {
  import opened Text
  import opened Frames

  /** One rainfall header: `c.strip().lower()`. */
  function RainfallHeader(c: string): (r: string)
    ensures IsStripped(r) && IsLowerCase(r)
    ensures Strip(c) == [] <==> r == []
  {
    LowerKeepsStripped(Strip(c));
    Lower(Strip(c))
  }

  /** `columns.str.strip().str.lower()`, header by header. */
  function RainfallHeaders(columns: seq<string>): (r: seq<string>)
    ensures |r| == |columns|
    ensures forall i :: 0 <= i < |r| ==> r[i] == RainfallHeader(columns[i])
  {
    seq(|columns|, i requires 0 <= i < |columns| => RainfallHeader(columns[i]))
  }

  /** `columns.str.strip()`, header by header. */
  function CropHeaders(columns: seq<string>): (r: seq<string>)
    ensures |r| == |columns|
    ensures forall i :: 0 <= i < |r| ==> r[i] == Strip(columns[i])
  {
    seq(|columns|, i requires 0 <= i < |columns| => Strip(columns[i]))
  }

  /** The rename applied to the crop table (crop.py, lines 22-26). */
  const CropRenames: map<string, string> := map[
    "Crop" := "Crop",
    "Production (Lakh Tons) - 2023-24" := "Production (Lakh Tons)",
    "Productivity (Yield in kg/ha) - 2023-24" := "Yield (kg/ha)"
  ]

  /** `df.rename(columns=m)`: a header that is a key of `m` becomes the key's
      value, every other header stays as it is. */
  function Rename(columns: seq<string>, m: map<string, string>): (r: seq<string>)
    ensures |r| == |columns|
    ensures forall i :: 0 <= i < |r| && columns[i] in m ==> r[i] == m[columns[i]]
    ensures forall i :: 0 <= i < |r| && columns[i] !in m ==> r[i] == columns[i]
  {
    seq(|columns|, i requires 0 <= i < |columns| => if columns[i] in m then m[columns[i]] else columns[i])
  }

  /** The crop table's headers after lines 19 and 22-26: stripped, then renamed. */
  function CropHeadersRenamed(columns: seq<string>): (r: seq<string>)
    ensures |r| == |columns|
    ensures forall i :: 0 <= i < |r| ==> IsStripped(r[i])
    ensures forall i :: 0 <= i < |r| && Strip(columns[i]) !in CropRenames ==> r[i] == Strip(columns[i])
  {
    forall v | v in CropRenames.Values
      ensures IsStripped(v)
    {
      CropRenameValuesFixed(v);
    }
    Rename(CropHeaders(columns), CropRenames)
  }

  /** A table with its headers replaced and its data left alone. */
  function WithColumns(t: Table, columns: seq<string>): (r: Table)
    requires |columns| == |t.columns|
    ensures r.columns == columns && r.kinds == t.kinds && r.rows == t.rows
    ensures WellFormed(t) ==> WellFormed(r)
  {
    Table(columns, t.kinds, t.rows)
  }

  /** The rainfall table after line 18: same data, every header stripped and
      lower case. */
  function NormalizedRainfall(t: Table): (r: Table)
    ensures r.kinds == t.kinds && r.rows == t.rows && |r.columns| == |t.columns|
    ensures forall i :: 0 <= i < |r.columns| ==> IsStripped(r.columns[i]) && IsLowerCase(r.columns[i])
    ensures WellFormed(t) ==> WellFormed(r)
  {
    WithColumns(t, RainfallHeaders(t.columns))
  }

  /** The crop table after lines 19-26: same data, every header stripped and
      the verbose labels shortened. */
  function NormalizedCrop(t: Table): (r: Table)
    ensures r.kinds == t.kinds && r.rows == t.rows && |r.columns| == |t.columns|
    ensures forall i :: 0 <= i < |r.columns| ==> IsStripped(r.columns[i])
    ensures WellFormed(t) ==> WellFormed(r)
  {
    WithColumns(t, CropHeadersRenamed(t.columns))
  }

  /** After normalisation every rainfall header is stripped and lower case. */
  lemma RainfallHeadersNormal(columns: seq<string>)
    ensures forall i :: 0 <= i < |columns| ==>
              IsStripped(RainfallHeaders(columns)[i]) && IsLowerCase(RainfallHeaders(columns)[i])
  {
  }

  /** Normalising a rainfall header a second time changes nothing. */
  lemma RainfallHeaderIdempotent(c: string)
    ensures RainfallHeader(RainfallHeader(c)) == RainfallHeader(c)
  {
    var r := RainfallHeader(c);
    StripKeepsStripped(r);
    LowerKeepsLowerCase(r);
  }

  /** Normalising the rainfall table a second time changes nothing. */
  lemma RainfallIdempotent(t: Table)
    ensures NormalizedRainfall(NormalizedRainfall(t)) == NormalizedRainfall(t)
  {
    var once := RainfallHeaders(t.columns);
    var twice := RainfallHeaders(once);
    forall i | 0 <= i < |once|
      ensures twice[i] == once[i]
    {
      RainfallHeaderIdempotent(t.columns[i]);
    }
    assert twice == once;
  }

  /** Stripping keeps each crop header's case: the result is a slice of the
      original header with only whitespace cut away. */
  lemma CropHeadersKeepCase(columns: seq<string>, i: nat)
    requires i < |columns|
    ensures exists a, b :: 0 <= a <= b <= |columns[i]| && CropHeaders(columns)[i] == columns[i][a..b]
  {
    var s := Strip(columns[i]);
    var a, b :| 0 <= a <= b <= |columns[i]| && s == columns[i][a..b];
    assert CropHeaders(columns)[i] == columns[i][a..b];
  }

  /** The rename map: `"Crop"` maps to itself, the two verbose headers map to
      their short forms, and nothing else is touched. */
  lemma CropRenamesAt(columns: seq<string>, i: nat)
    requires i < |columns|
    ensures columns[i] == "Crop" ==> Rename(columns, CropRenames)[i] == "Crop"
    ensures columns[i] == "Production (Lakh Tons) - 2023-24" ==>
              Rename(columns, CropRenames)[i] == "Production (Lakh Tons)"
    ensures columns[i] == "Productivity (Yield in kg/ha) - 2023-24" ==>
              Rename(columns, CropRenames)[i] == "Yield (kg/ha)"
    ensures columns[i] !in CropRenames ==> Rename(columns, CropRenames)[i] == columns[i]
  {
  }

  /** A key of the rename map that no header carries has no effect (and, the
      function being total, raises nothing). */
  lemma RenameIgnoresAbsentKeys(columns: seq<string>, m: map<string, string>, key: string)
    requires key !in columns
    ensures Rename(columns, m) == Rename(columns, m - {key})
  {
  }

  /** The values of the crop rename map are stripped, and renaming them again
      gives them back. */
  lemma CropRenameValuesFixed(v: string)
    requires v in CropRenames.Values
    ensures IsStripped(v)
    ensures (if v in CropRenames then CropRenames[v] else v) == v
  {
    assert v == "Crop" || v == "Production (Lakh Tons)" || v == "Yield (kg/ha)";
  }

  /** Normalising the crop table a second time changes nothing. */
  lemma CropIdempotent(t: Table)
    ensures NormalizedCrop(NormalizedCrop(t)) == NormalizedCrop(t)
  {
    var once := CropHeadersRenamed(t.columns);
    var twice := CropHeadersRenamed(once);
    forall i | 0 <= i < |once|
      ensures twice[i] == once[i]
    {
      var s := Strip(t.columns[i]);
      if s in CropRenames {
        assert once[i] == CropRenames[s];
        CropRenameValuesFixed(once[i]);
      } else {
        assert once[i] == s;
      }
      StripKeepsStripped(once[i]);
    }
    assert twice == once;
  }

  /** A pandas DataFrame whose headers the script reassigns in place. */
  class DataFrame {
    var columns: seq<string>
    var kinds: seq<ColumnKind>
    var rows: seq<seq<Cell>>

    /** The table the frame holds right now. */
    function Snapshot(): Table
      reads this
    {
      Table(columns, kinds, rows)
    }

    constructor (t: Table)
      ensures Snapshot() == t
    {
      columns := t.columns;
      kinds := t.kinds;
      rows := t.rows;
    }

    /** `df.columns = df.columns.str.strip().str.lower()` (line 18). */
    method StripLowerColumns()
      modifies this
      ensures Snapshot() == NormalizedRainfall(old(Snapshot()))
      ensures forall i :: 0 <= i < |columns| ==> IsStripped(columns[i]) && IsLowerCase(columns[i])
    {
      columns := RainfallHeaders(columns);
    }

    /** `df.columns = df.columns.str.strip()` (line 19). */
    method StripColumns()
      modifies this
      ensures columns == CropHeaders(old(columns))
      ensures kinds == old(kinds) && rows == old(rows)
      ensures forall i :: 0 <= i < |columns| ==> IsStripped(columns[i])
    {
      columns := CropHeaders(columns);
    }

    /** `df.rename(columns=m, inplace=True)` (lines 22-26). */
    method RenameColumns(m: map<string, string>)
      modifies this
      ensures columns == Rename(old(columns), m)
      ensures kinds == old(kinds) && rows == old(rows)
    {
      columns := Rename(columns, m);
    }
  }

  /** Lines 18-26 of the script: both tables' headers normalised in place. */
  method PreprocessFrames(rain: DataFrame, agri: DataFrame)
    requires rain != agri
    modifies rain, agri
    ensures rain.Snapshot() == NormalizedRainfall(old(rain.Snapshot()))
    ensures agri.Snapshot() == NormalizedCrop(old(agri.Snapshot()))
  {
    rain.StripLowerColumns();
    agri.StripColumns();
    agri.RenameColumns(CropRenames);
  }
}
