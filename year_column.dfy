/** Which rainfall column holds the year (crop.py, lines 54-60): a column
    named exactly "year" wins; otherwise the first column, in column order,
    whose name contains "year"; otherwise `[...][0]` on an empty list raises. */
module YearColumn {
  import opened Text
  import opened Frames

  const YearName: string := "year"

  /** `df.keys()`: for a DataFrame, its column labels. */
  function Keys(t: Table): (r: seq<string>)
    ensures forall c :: c in r <==> c in t.columns
  {
    t.columns
  }

  /** `[col for col in columns if "year" in col]`. */
  function YearLike(columns: seq<string>): (r: seq<string>)
    ensures |r| <= |columns|
    ensures forall c :: c in r <==> c in columns && Contains(c, YearName)
    decreases |columns|
  {
    if |columns| == 0 then []
    else
      assert columns == [columns[0]] + columns[1..];
      (if Contains(columns[0], YearName) then [columns[0]] else []) + YearLike(columns[1..])
  }

  /** The comprehension keeps column order, so its first element is the first
      column, in order, that contains "year". */
  lemma {:induction false} YearLikeFirst(columns: seq<string>)
    requires |YearLike(columns)| > 0
    ensures exists i :: 0 <= i < |columns| && columns[i] == YearLike(columns)[0]
                     && forall j :: 0 <= j < i ==> !Contains(columns[j], YearName)
    decreases |columns|
  {
    if Contains(columns[0], YearName) {
      assert columns[0] == YearLike(columns)[0];
    } else {
      var rest := columns[1..];
      assert YearLike(columns) == YearLike(rest);
      YearLikeFirst(rest);
      var i :| 0 <= i < |rest| && rest[i] == YearLike(rest)[0]
               && forall j :: 0 <= j < i ==> !Contains(rest[j], YearName);
      assert columns[i + 1] == YearLike(columns)[0];
      assert forall j :: 0 <= j < i + 1 ==> !Contains(columns[j], YearName) by {
        forall j | 0 <= j < i + 1
          ensures !Contains(columns[j], YearName)
        {
          if j > 0 {
            assert columns[j] == rest[j - 1];
          }
        }
      }
    }
  }

  /** The resolver as the script writes it, including the `keys()` branch of
      line 56, which repeats the test of line 54. */
  function ResolveYearColumn(t: Table): (r: Result<string>)
    ensures YearName in t.columns ==> r == Ok(YearName)
    ensures YearName !in t.columns && r.Ok? ==>
              exists i :: 0 <= i < |t.columns| && t.columns[i] == r.value && Contains(r.value, YearName)
                       && forall j :: 0 <= j < i ==> !Contains(t.columns[j], YearName)
    ensures r.Err? <==> forall c :: c in t.columns ==> !Contains(c, YearName)
    ensures r.Err? ==> r.error == IndexError
  {
    ContainsItself(YearName);
    if YearName in t.columns then Ok(YearName)
    else if YearName in Keys(t) then Ok(YearName)
    else
      var found := YearLike(t.columns);
      if |found| == 0 then Err(IndexError)
      else
        assert found[0] in found;
        YearLikeFirst(t.columns);
        Ok(found[0])
  }

  /** The `keys()` branch at line 56 is never the one taken: `keys()` holds
      "year" exactly when `columns` does, and line 54 has already checked that. */
  lemma KeysBranchUnreachable(t: Table)
    ensures (YearName in Keys(t)) == (YearName in t.columns)
  {
  }

  /** Whatever the resolver picks is a column of the table that contains "year". */
  lemma ResolvedIsYearLike(t: Table)
    requires ResolveYearColumn(t).Ok?
    ensures ResolveYearColumn(t).value in t.columns
    ensures Contains(ResolveYearColumn(t).value, YearName)
  {
    ContainsItself(YearName);
  }
}
