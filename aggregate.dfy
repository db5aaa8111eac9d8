/** The rainfall summary (crop.py, line 63):
    `df.groupby(year).mean(numeric_only=True).reset_index()`. One row per
    distinct non-missing year, years ascending; the year column first, then
    the mean of every numeric column other than the year, in column order;
    text columns dropped; NaN skipped inside each mean. */
module Aggregate {
  import opened Frames

  function Sum(xs: seq<real>): real
    decreases |xs|
  {
    if |xs| == 0 then 0.0 else Sum(xs[..|xs| - 1]) + xs[|xs| - 1]
  }

  /** The numbers among `cells`, in order; NaN and strings are skipped. */
  function Numbers(cells: seq<Cell>): (r: seq<real>)
    ensures |r| <= |cells|
    ensures forall x :: x in r <==> Num(x) in cells
    decreases |cells|
  {
    if |cells| == 0 then []
    else
      var rest := Numbers(cells[..|cells| - 1]);
      var c := cells[|cells| - 1];
      assert cells == cells[..|cells| - 1] + [c];
      if c.Num? then rest + [c.value] else rest
  }

  /** `Numbers` works cell by cell: it splits over concatenation, so with
      `NumbersOfCell` it is fixed completely, order and repetitions included. */
  lemma {:induction false} NumbersConcat(a: seq<Cell>, b: seq<Cell>)
    ensures Numbers(a + b) == Numbers(a) + Numbers(b)
    decreases |b|
  {
    if |b| == 0 {
      assert a + b == a;
    } else {
      var pre := b[..|b| - 1];
      assert (a + b)[..|a + b| - 1] == a + pre;
      assert (a + b)[|a + b| - 1] == b[|b| - 1];
      NumbersConcat(a, pre);
    }
  }

  /** A single cell contributes its number, or nothing when it is NaN or text. */
  lemma NumbersOfCell(c: Cell)
    ensures Numbers([c]) == (if c.Num? then [c.value] else [])
  {
    assert [c][..0] == [];
  }

  /** If every number exceeds `m`, so does their average. */
  lemma {:induction false} SumAbove(xs: seq<real>, m: real)
    requires forall x :: x in xs ==> x > m
    ensures Sum(xs) >= |xs| as real * m
    ensures |xs| > 0 ==> Sum(xs) > |xs| as real * m
    decreases |xs|
  {
    if |xs| > 0 {
      var pre := xs[..|xs| - 1];
      assert forall x :: x in pre ==> x in xs;
      assert xs[|xs| - 1] in xs;
      SumAbove(pre, m);
    }
  }

  /** If every number is below `m`, so is their average. */
  lemma {:induction false} SumBelow(xs: seq<real>, m: real)
    requires forall x :: x in xs ==> x < m
    ensures Sum(xs) <= |xs| as real * m
    ensures |xs| > 0 ==> Sum(xs) < |xs| as real * m
    decreases |xs|
  {
    if |xs| > 0 {
      var pre := xs[..|xs| - 1];
      assert forall x :: x in pre ==> x in xs;
      assert xs[|xs| - 1] in xs;
      SumBelow(pre, m);
    }
  }

  /** The average of a non-empty list lies between its least and its
      greatest element. */
  lemma AverageWithinRange(xs: seq<real>)
    requires |xs| > 0
    ensures exists x :: x in xs && x <= Average(xs)
    ensures exists x :: x in xs && x >= Average(xs)
  {
    var avg := Average(xs);
    if forall x :: x in xs ==> x > avg {
      SumAbove(xs, avg);
    }
    if forall x :: x in xs ==> x < avg {
      SumBelow(xs, avg);
    }
  }

  /** The arithmetic mean of a non-empty list of numbers. */
  function Average(xs: seq<real>): (avg: real)
    requires |xs| > 0
    ensures avg * |xs| as real == Sum(xs)
  {
    Sum(xs) / |xs| as real
  }

  /** The average of the numbers among `cells`, with a cell on either side of it. */
  lemma CellsAroundAverage(cells: seq<Cell>)
    requires |Numbers(cells)| > 0
    ensures exists c :: c in cells && c.Num? && c.value <= Average(Numbers(cells))
    ensures exists c :: c in cells && c.Num? && c.value >= Average(Numbers(cells))
  {
    var xs := Numbers(cells);
    AverageWithinRange(xs);
    var lo :| lo in xs && lo <= Average(xs);
    var hi :| hi in xs && hi >= Average(xs);
    assert Num(lo) in cells && Num(hi) in cells;
  }

  /** pandas' `mean()` of one group's column: NaN skipped, and NaN when the
      group holds no number at all. */
  function Mean(cells: seq<Cell>): (r: Cell)
    ensures r.Missing? || r.Num?
    ensures r.Missing? <==> forall c :: c in cells ==> !c.Num?
    ensures r.Num? ==> |Numbers(cells)| > 0 && r.value == Average(Numbers(cells))
  {
    var xs := Numbers(cells);
    if |xs| == 0 then
      Missing
    else
      assert xs[0] in xs && Num(xs[0]) in cells;
      Num(Average(xs))
  }

  /** A mean that is a number lies between the least and the greatest number
      it was taken over. */
  lemma MeanWithinRange(cells: seq<Cell>)
    requires Mean(cells).Num?
    ensures exists c :: c in cells && c.Num? && c.value <= Mean(cells).value
    ensures exists c :: c in cells && c.Num? && c.value >= Mean(cells).value
  {
    CellsAroundAverage(cells);
    assert Mean(cells).value == Average(Numbers(cells));
  }

  /** Column `j` of the rows whose column `k` holds `g`, in row order. */
  function GroupCells(rows: seq<seq<Cell>>, k: nat, g: Cell, j: nat): (r: seq<Cell>)
    requires forall i :: 0 <= i < |rows| ==> k < |rows[i]| && j < |rows[i]|
    ensures |r| <= |rows|
    ensures forall c :: c in r <==> exists i :: 0 <= i < |rows| && rows[i][k] == g && rows[i][j] == c
    decreases |rows|
  {
    if |rows| == 0 then []
    else
      var pre := rows[..|rows| - 1];
      var last := rows[|rows| - 1];
      var rest := GroupCells(pre, k, g, j);
      assert forall i :: 0 <= i < |pre| ==> pre[i] == rows[i];
      if last[k] == g then rest + [last[j]] else rest
  }

  /** Column `k` of every row. */
  function KeyCells(rows: seq<seq<Cell>>, k: nat): (r: seq<Cell>)
    requires forall i :: 0 <= i < |rows| ==> k < |rows[i]|
    ensures |r| == |rows| && forall i :: 0 <= i < |rows| ==> r[i] == rows[i][k]
  {
    seq(|rows|, i requires 0 <= i < |rows| => rows[i][k])
  }

  /** A group holds exactly one cell per row of its key, in row order: its
      `m`-th cell comes from the `m`-th row whose column `k` holds `g`. */
  lemma {:induction false} GroupCellsInRowOrder(rows: seq<seq<Cell>>, k: nat, g: Cell, j: nat)
    requires forall i :: 0 <= i < |rows| ==> k < |rows[i]| && j < |rows[i]|
    ensures var idx := Positions(KeyCells(rows, k), g);
            |GroupCells(rows, k, g, j)| == |idx| &&
            forall m :: 0 <= m < |idx| ==> GroupCells(rows, k, g, j)[m] == rows[idx[m]][j]
    decreases |rows|
  {
    if |rows| > 0 {
      var last := |rows| - 1;
      var pre := rows[..last];
      GroupCellsInRowOrder(pre, k, g, j);
      var keys := KeyCells(rows, k);
      assert keys[..last] == KeyCells(pre, k);
      var idx, idxPre := Positions(keys, g), Positions(KeyCells(pre, k), g);
      var group, groupPre := GroupCells(rows, k, g, j), GroupCells(pre, k, g, j);
      if rows[last][k] == g {
        assert idx == idxPre + [last] && group == groupPre + [rows[last][j]];
      } else {
        assert idx == idxPre && group == groupPre;
      }
      forall m | 0 <= m < |idxPre|
        ensures group[m] == rows[idx[m]][j]
      {
        assert groupPre[m] == pre[idxPre[m]][j];
      }
    }
  }

  /** The kept columns stay in their original order. */
  lemma {:induction false} NumericColumnsAscending(kinds: seq<ColumnKind>, k: nat)
    ensures forall m, n :: 0 <= m < n < |NumericColumns(kinds, k)| ==>
              NumericColumns(kinds, k)[m] < NumericColumns(kinds, k)[n]
    decreases |kinds|
  {
    if |kinds| > 0 {
      var last := |kinds| - 1;
      NumericColumnsAscending(kinds[..last], k);
    }
  }

  /** `numeric_only=True`: the indices of the numeric columns other than the
      grouping column `k`, in column order. */
  function NumericColumns(kinds: seq<ColumnKind>, k: nat): (r: seq<nat>)
    ensures forall n :: 0 <= n < |r| ==> r[n] < |kinds| && r[n] != k && kinds[r[n]] == Numeric
    ensures forall j :: 0 <= j < |kinds| && j != k && kinds[j] == Numeric ==> j in r
    decreases |kinds|
  {
    if |kinds| == 0 then []
    else
      var last := |kinds| - 1;
      NumericColumns(kinds[..last], k) + (if last != k && kinds[last] == Numeric then [last] else [])
  }

  lemma KeyFitsColumn(t: Table, k: nat, g: Cell)
    requires WellFormed(t) && k < |t.columns|
    requires g in Column(t, k)
    ensures Fits(t.kinds[k], g)
  {
    var col := Column(t, k);
    var i :| 0 <= i < |col| && col[i] == g;
    assert g == t.rows[i][k];
  }

  /** The labels of the summary's columns. */
  function SummaryHeader(t: Table, k: nat, numeric: seq<nat>): (r: seq<string>)
    requires k < |t.columns| && forall n :: 0 <= n < |numeric| ==> numeric[n] < |t.columns|
    ensures |r| == |numeric| + 1 && r[0] == t.columns[k]
    ensures forall n :: 0 <= n < |numeric| ==> r[n + 1] == t.columns[numeric[n]]
  {
    [t.columns[k]] + seq(|numeric|, n requires 0 <= n < |numeric| => t.columns[numeric[n]])
  }

  /** The summary row of year `g`: the year, then one mean per numeric column. */
  function SummaryRow(t: Table, k: nat, numeric: seq<nat>, g: Cell): (r: seq<Cell>)
    requires WellFormed(t) && k < |t.columns|
    requires forall n :: 0 <= n < |numeric| ==> numeric[n] < |t.columns|
    ensures |r| == |numeric| + 1 && r[0] == g
    ensures forall n :: 0 <= n < |numeric| ==> r[n + 1] == Mean(GroupCells(t.rows, k, g, numeric[n]))
    ensures forall n :: 1 <= n < |r| ==> Fits(Numeric, r[n])
  {
    var means := seq(|numeric|, n requires 0 <= n < |numeric| => Mean(GroupCells(t.rows, k, g, numeric[n])));
    assert forall n :: 0 <= n < |means| ==> Fits(Numeric, means[n]);
    [g] + means
  }

  /** The summary table for grouping column `k`. */
  function GroupMeans(t: Table, k: nat): (r: Table)
    requires WellFormed(t) && k < |t.columns|
    ensures r.columns == SummaryHeader(t, k, NumericColumns(t.kinds, k))
    ensures |r.rows| == |SortedUnique(Column(t, k))|
    ensures forall m :: 0 <= m < |r.rows| ==>
              r.rows[m] == SummaryRow(t, k, NumericColumns(t.kinds, k), SortedUnique(Column(t, k))[m])
  {
    var keys := SortedUnique(Column(t, k));
    var numeric := NumericColumns(t.kinds, k);
    Table(SummaryHeader(t, k, numeric),
          SummaryKinds(t.kinds[k], |numeric|),
          seq(|keys|, m requires 0 <= m < |keys| => SummaryRow(t, k, numeric, keys[m])))
  }

  /** The summary's dtypes: the grouping column's own, then one numeric
      dtype per mean. */
  function SummaryKinds(key: ColumnKind, count: nat): (r: seq<ColumnKind>)
    ensures |r| == count + 1 && r[0] == key
    ensures forall n :: 1 <= n < |r| ==> r[n] == Numeric
  {
    [key] + seq(count, n => Numeric)
  }

  /** One summary row fits the summary's dtypes: the year keeps its column's
      dtype and every mean is a number or NaN. */
  lemma SummaryRowFits(t: Table, k: nat, numeric: seq<nat>, g: Cell)
    requires WellFormed(t) && k < |t.columns|
    requires forall n :: 0 <= n < |numeric| ==> numeric[n] < |t.columns|
    requires Fits(t.kinds[k], g)
    ensures forall n :: 0 <= n < |numeric| + 1 ==>
              Fits(SummaryKinds(t.kinds[k], |numeric|)[n], SummaryRow(t, k, numeric, g)[n])
  {
  }

  /** Every summary cell fits its column's dtype. */
  lemma SummaryCellsFit(t: Table, k: nat, r: Table)
    requires WellFormed(t) && k < |t.columns| && r == GroupMeans(t, k)
    ensures |r.kinds| == |r.columns|
    ensures forall m :: 0 <= m < |r.rows| ==> |r.rows[m]| == |r.columns|
    ensures forall m, n :: 0 <= m < |r.rows| && 0 <= n < |r.columns| ==> Fits(r.kinds[n], r.rows[m][n])
  {
    var keys := SortedUnique(Column(t, k));
    var numeric := NumericColumns(t.kinds, k);
    forall m | 0 <= m < |r.rows|
      ensures |r.rows[m]| == |r.columns|
      ensures forall n :: 0 <= n < |r.columns| ==> Fits(r.kinds[n], r.rows[m][n])
    {
      assert keys[m] in keys;
      KeyFitsColumn(t, k, keys[m]);
      SummaryRowFits(t, k, numeric, keys[m]);
    }
  }

  /** The summary is a well-formed table: the year column keeps its dtype and
      every mean column is numeric. */
  lemma SummaryWellFormed(t: Table, k: nat)
    requires WellFormed(t) && k < |t.columns|
    ensures WellFormed(GroupMeans(t, k))
    ensures GroupMeans(t, k).kinds[0] == t.kinds[k]
    ensures forall n :: 1 <= n < |GroupMeans(t, k).kinds| ==> GroupMeans(t, k).kinds[n] == Numeric
  {
    SummaryCellsFit(t, k, GroupMeans(t, k));
  }

  /** The whole of line 63: group by the column labelled `year`. */
  function AggregateByYear(t: Table, year: string): (r: Result<Table>)
    requires WellFormed(t)
    ensures r.Ok? <==> Lookup(t.columns, year).Ok?
    ensures r.Err? ==> r.error == (if year in t.columns then DuplicateLabel(year) else KeyError(year))
    ensures r.Ok? ==> WellFormed(r.value) && |r.value.columns| >= 1 && r.value.columns[0] == year
    ensures r.Ok? ==> r.value == GroupMeans(t, Lookup(t.columns, year).value)
  {
    match Lookup(t.columns, year)
    case Err(e) => Err(e)
    case Ok(k) =>
      SummaryWellFormed(t, k);
      Ok(GroupMeans(t, k))
  }

  /** The years of the summary strictly ascend, so no year has two rows. */
  lemma SummaryYearsAscending(t: Table, k: nat, r: Table)
    requires WellFormed(t) && k < |t.columns| && r == GroupMeans(t, k)
    ensures forall m, n :: 0 <= m < n < |r.rows| ==> Less(r.rows[m][0], r.rows[n][0])
    ensures forall m, n :: 0 <= m < n < |r.rows| ==> r.rows[m][0] != r.rows[n][0]
  {
    var keys := SortedUnique(Column(t, k));
    assert forall m :: 0 <= m < |r.rows| ==> r.rows[m][0] == keys[m];
    AscendingDistinct(keys);
  }

  /** Every year of the summary is a non-missing year of some input row. */
  lemma SummaryYearsFromInput(t: Table, k: nat, r: Table)
    requires WellFormed(t) && k < |t.columns| && r == GroupMeans(t, k)
    ensures forall m :: 0 <= m < |r.rows| ==>
              !r.rows[m][0].Missing? && exists i :: 0 <= i < |t.rows| && t.rows[i][k] == r.rows[m][0]
  {
    var col := Column(t, k);
    var keys := SortedUnique(col);
    forall m | 0 <= m < |r.rows|
      ensures !r.rows[m][0].Missing? && exists i :: 0 <= i < |t.rows| && t.rows[i][k] == r.rows[m][0]
    {
      assert r.rows[m][0] == keys[m];
      assert keys[m] in keys;
      var i :| 0 <= i < |col| && col[i] == keys[m];
    }
  }

  /** Every input row whose year is present has its year in the summary. */
  lemma EveryYearSummarized(t: Table, k: nat, r: Table)
    requires WellFormed(t) && k < |t.columns| && r == GroupMeans(t, k)
    ensures forall i :: 0 <= i < |t.rows| && !t.rows[i][k].Missing? ==>
              exists m :: 0 <= m < |r.rows| && r.rows[m][0] == t.rows[i][k]
  {
    var col := Column(t, k);
    var keys := SortedUnique(col);
    forall i | 0 <= i < |t.rows| && !t.rows[i][k].Missing?
      ensures exists m :: 0 <= m < |r.rows| && r.rows[m][0] == t.rows[i][k]
    {
      assert col[i] == t.rows[i][k];
      assert t.rows[i][k] in keys;
      var m :| 0 <= m < |keys| && keys[m] == t.rows[i][k];
      assert r.rows[m][0] == t.rows[i][k];
    }
  }

  /** After the year, the summary header names only numeric columns of the
      input other than the year. */
  lemma HeaderOnlyNumeric(t: Table, k: nat)
    requires WellFormed(t) && k < |t.columns|
    ensures var h := SummaryHeader(t, k, NumericColumns(t.kinds, k));
            forall n :: 1 <= n < |h| ==>
              exists j :: 0 <= j < |t.columns| && j != k && t.kinds[j] == Numeric && h[n] == t.columns[j]
  {
    var numeric := NumericColumns(t.kinds, k);
    var h := SummaryHeader(t, k, numeric);
    forall n | 1 <= n < |h|
      ensures exists j :: 0 <= j < |t.columns| && j != k && t.kinds[j] == Numeric && h[n] == t.columns[j]
    {
      var j := numeric[n - 1];
      assert h[n] == t.columns[j];
    }
  }

  /** The summary header names every numeric column other than the year. */
  lemma HeaderAllNumeric(t: Table, k: nat)
    requires WellFormed(t) && k < |t.columns|
    ensures var h := SummaryHeader(t, k, NumericColumns(t.kinds, k));
            forall j :: 0 <= j < |t.columns| && j != k && t.kinds[j] == Numeric ==> t.columns[j] in h[1..]
  {
    var numeric := NumericColumns(t.kinds, k);
    var tail := SummaryHeader(t, k, numeric)[1..];
    forall j | 0 <= j < |t.columns| && j != k && t.kinds[j] == Numeric
      ensures t.columns[j] in tail
    {
      assert j in numeric;
      var n :| 0 <= n < |numeric| && numeric[n] == j;
      assert tail[n] == t.columns[j];
    }
  }

  /** After the year, the summary's columns are numeric columns of the input
      other than the year, in their original order. */
  lemma SummaryColumnsNumeric(t: Table, k: nat, r: Table)
    requires WellFormed(t) && k < |t.columns| && r == GroupMeans(t, k)
    ensures |r.columns| >= 1 && r.columns[0] == t.columns[k]
    ensures forall n :: 1 <= n < |r.columns| ==>
              exists j :: 0 <= j < |t.columns| && j != k && t.kinds[j] == Numeric && r.columns[n] == t.columns[j]
  {
    HeaderOnlyNumeric(t, k);
  }

  /** Every numeric column other than the year is kept. */
  lemma NumericColumnsKept(t: Table, k: nat, r: Table)
    requires WellFormed(t) && k < |t.columns| && r == GroupMeans(t, k)
    ensures forall j :: 0 <= j < |t.columns| && j != k && t.kinds[j] == Numeric ==> t.columns[j] in r.columns[1..]
  {
    HeaderAllNumeric(t, k);
  }

  /** A text column other than the year is dropped: when its label is unique,
      the label does not appear in the summary. */
  lemma TextColumnsDropped(t: Table, k: nat, r: Table, j: nat)
    requires WellFormed(t) && k < |t.columns| && r == GroupMeans(t, k)
    requires j < |t.columns| && j != k && t.kinds[j] == Textual
    requires forall i :: 0 <= i < |t.columns| && i != j ==> t.columns[i] != t.columns[j]
    ensures t.columns[j] !in r.columns
  {
    var numeric := NumericColumns(t.kinds, k);
    forall n | 0 <= n < |r.columns|
      ensures r.columns[n] != t.columns[j]
    {
      if n > 0 {
        assert r.columns[n] == t.columns[numeric[n - 1]];
      }
    }
  }

  /** A summary cell is NaN exactly when no input row of its year holds a
      number in its column. */
  lemma CellMissingIffNoNumber(t: Table, k: nat, r: Table, m: nat, n: nat)
    requires WellFormed(t) && k < |t.columns| && r == GroupMeans(t, k)
    requires m < |r.rows| && n < |NumericColumns(t.kinds, k)|
    ensures r.columns[n + 1] == t.columns[NumericColumns(t.kinds, k)[n]]
    ensures r.rows[m][n + 1].Missing? <==>
              forall i :: 0 <= i < |t.rows| && t.rows[i][k] == r.rows[m][0] ==>
                !t.rows[i][NumericColumns(t.kinds, k)[n]].Num?
  {
    var j := NumericColumns(t.kinds, k)[n];
    var group := GroupCells(t.rows, k, r.rows[m][0], j);
    assert r.rows[m][n + 1] == Mean(group);
    if !r.rows[m][n + 1].Missing? {
      var c :| c in group && c.Num?;
    } else {
      forall i | 0 <= i < |t.rows| && t.rows[i][k] == r.rows[m][0]
        ensures !t.rows[i][j].Num?
      {
        assert t.rows[i][j] in group;
      }
    }
  }

  /** The mean of a group lies between the least and the greatest number of
      the group's rows. */
  lemma GroupMeanWithinRange(rows: seq<seq<Cell>>, k: nat, g: Cell, j: nat)
    requires forall i :: 0 <= i < |rows| ==> k < |rows[i]| && j < |rows[i]|
    requires Mean(GroupCells(rows, k, g, j)).Num?
    ensures exists i :: 0 <= i < |rows| && rows[i][k] == g && rows[i][j].Num?
                     && rows[i][j].value <= Mean(GroupCells(rows, k, g, j)).value
    ensures exists i :: 0 <= i < |rows| && rows[i][k] == g && rows[i][j].Num?
                     && rows[i][j].value >= Mean(GroupCells(rows, k, g, j)).value
  {
    var group := GroupCells(rows, k, g, j);
    var avg := Mean(group).value;
    MeanWithinRange(group);
    var lo :| lo in group && lo.Num? && lo.value <= avg;
    var i :| 0 <= i < |rows| && rows[i][k] == g && rows[i][j] == lo;
    var hi :| hi in group && hi.Num? && hi.value >= avg;
    var i' :| 0 <= i' < |rows| && rows[i'][k] == g && rows[i'][j] == hi;
  }

  /** A numeric summary cell holds the mean of its column over its year's rows. */
  lemma SummaryCellIsMean(t: Table, k: nat, r: Table, m: nat, n: nat)
    requires WellFormed(t) && k < |t.columns| && r == GroupMeans(t, k)
    requires m < |r.rows| && n < |NumericColumns(t.kinds, k)|
    ensures r.rows[m][n + 1] == Mean(GroupCells(t.rows, k, r.rows[m][0], NumericColumns(t.kinds, k)[n]))
  {
  }

  /** A numeric summary cell lies between the least and the greatest number
      its column holds in the input rows of its year. */
  lemma CellWithinGroupRange(t: Table, k: nat, r: Table, m: nat, n: nat)
    requires WellFormed(t) && k < |t.columns| && r == GroupMeans(t, k)
    requires m < |r.rows| && n < |NumericColumns(t.kinds, k)| && r.rows[m][n + 1].Num?
    ensures var j, g, mean := NumericColumns(t.kinds, k)[n], r.rows[m][0], r.rows[m][n + 1].value;
            && (exists i :: 0 <= i < |t.rows| && t.rows[i][k] == g && t.rows[i][j].Num? && t.rows[i][j].value <= mean)
            && (exists i :: 0 <= i < |t.rows| && t.rows[i][k] == g && t.rows[i][j].Num? && t.rows[i][j].value >= mean)
  {
    var j := NumericColumns(t.kinds, k)[n];
    var g := r.rows[m][0];
    SummaryCellIsMean(t, k, r, m, n);
    GroupMeanWithinRange(t.rows, k, g, j);
  }

  /** A numeric summary cell is the average of the numbers its column holds
      in the input rows of its year, taken in row order. */
  lemma CellIsGroupAverage(t: Table, k: nat, r: Table, m: nat, n: nat)
    requires WellFormed(t) && k < |t.columns| && r == GroupMeans(t, k)
    requires m < |r.rows| && n < |NumericColumns(t.kinds, k)| && r.rows[m][n + 1].Num?
    ensures var xs := Numbers(GroupCells(t.rows, k, r.rows[m][0], NumericColumns(t.kinds, k)[n]));
            |xs| > 0 && r.rows[m][n + 1] == Num(Average(xs))
  {
    SummaryCellIsMean(t, k, r, m, n);
  }

  /** The summary's header depends on the header and dtypes alone, so an
      empty table gets the same header as a full one. */
  lemma HeaderIndependentOfRows(t: Table, u: Table, k: nat)
    requires WellFormed(t) && WellFormed(u) && k < |t.columns|
    requires u.columns == t.columns && u.kinds == t.kinds
    ensures GroupMeans(u, k).columns == GroupMeans(t, k).columns
    ensures GroupMeans(u, k).kinds == GroupMeans(t, k).kinds
  {
  }

  /** An empty rainfall table gives an empty summary. */
  lemma EmptyInputEmptySummary(t: Table, k: nat)
    requires WellFormed(t) && k < |t.columns| && |t.rows| == 0
    ensures GroupMeans(t, k).rows == []
  {
  }
}
