/** The tables the dashboard works on, as values: named columns with a pandas
    dtype each (numeric or text) and rectangular rows of cells, plus the few
    pandas primitives the pipeline leans on: looking a column up by name,
    the positions where a column holds a value, and Python's `sorted` of a
    column's distinct non-missing values. */
module Frames {
  import opened Text

  /** One cell; `Missing` is pandas' NaN (an empty field in the CSV). */
  datatype Cell = Missing | Num(value: real) | Str(text: string)

  /** A column's dtype as `read_csv` infers it: numbers, or text (`object`). */
  datatype ColumnKind = Numeric | Textual

  datatype Table = Table(columns: seq<string>, kinds: seq<ColumnKind>, rows: seq<seq<Cell>>)

  /** The exceptions the pipeline can raise. */
  datatype Error =
    | KeyError(name: string)        // a column label that is not there
    | DuplicateLabel(name: string)  // a label naming several columns where one is needed
    | IndexError                     // `[0]` on an empty list or an empty column

  datatype Result<T> = Ok(value: T) | Err(error: Error) {
    predicate IsFailure() {
      Err?
    }

    function PropagateFailure<U>(): Result<U>
      requires Err?
    {
      Err(error)
    }

    function Extract(): T
      requires Ok?
    {
      value
    }
  }

  /** A cell fits its column's dtype: numeric columns hold numbers or NaN,
      text columns hold strings or NaN. */
  predicate Fits(kind: ColumnKind, c: Cell) {
    match c
    case Missing => true
    case Num(_) => kind == Numeric
    case Str(_) => kind == Textual
  }

  /** What every frame `read_csv` produces satisfies: one dtype per column,
      every row as wide as the header, every cell fitting its column. */
  predicate WellFormed(t: Table) {
    && |t.kinds| == |t.columns|
    && (forall i :: 0 <= i < |t.rows| ==> |t.rows[i]| == |t.columns|)
    && (forall i, j :: 0 <= i < |t.rows| && 0 <= j < |t.columns| ==> Fits(t.kinds[j], t.rows[i][j]))
  }

  /** The values of column `j`, top to bottom. */
  function Column(t: Table, j: nat): (r: seq<Cell>)
    requires WellFormed(t) && j < |t.columns|
    ensures |r| == |t.rows|
    ensures forall i :: 0 <= i < |r| ==> r[i] == t.rows[i][j]
  {
    seq(|t.rows|, i requires 0 <= i < |t.rows| => t.rows[i][j])
  }

  /** Where a column holds a value: `c in Column(t, j)` spelled out by row. */
  lemma InColumn(t: Table, j: nat, c: Cell)
    requires WellFormed(t) && j < |t.columns|
    ensures c in Column(t, j) <==> exists i :: 0 <= i < |t.rows| && t.rows[i][j] == c
  {
    if c in Column(t, j) {
      var i :| 0 <= i < |Column(t, j)| && Column(t, j)[i] == c;
    }
    if i :| 0 <= i < |t.rows| && t.rows[i][j] == c {
      assert Column(t, j)[i] == c;
    }
  }

  /** The indices, in ascending order, at which `s` holds `x`. */
  function Positions<T(==)>(s: seq<T>, x: T): (r: seq<nat>)
    ensures forall m :: 0 <= m < |r| ==> r[m] < |s| && s[r[m]] == x
    ensures forall m, n :: 0 <= m < n < |r| ==> r[m] < r[n]
    ensures forall i :: 0 <= i < |s| && s[i] == x ==> i in r
    decreases |s|
  {
    if |s| == 0 then []
    else Positions(s[..|s| - 1], x) + (if s[|s| - 1] == x then [|s| - 1] else [])
  }

  /** `df[name]` for a single column: its index when exactly one column
      carries the name, a `KeyError` when none does, and `DuplicateLabel`
      when several do (pandas then yields a frame, not a column). */
  function Lookup(columns: seq<string>, name: string): (r: Result<nat>)
    ensures r.Ok? ==> r.value < |columns| && columns[r.value] == name
    ensures r.Ok? ==> forall j :: 0 <= j < |columns| && j != r.value ==> columns[j] != name
    ensures r.Err? && name !in columns ==> r.error == KeyError(name)
    ensures r.Err? && name in columns ==> r.error == DuplicateLabel(name)
    ensures r.Err? && name in columns ==>
              exists i, j :: 0 <= i < j < |columns| && columns[i] == name && columns[j] == name
  {
    var p := Positions(columns, name);
    if |p| == 0 then
      assert name !in columns;
      Err(KeyError(name))
    else if |p| > 1 then
      assert columns[p[0]] == name && columns[p[1]] == name;
      Err(DuplicateLabel(name))
    else
      Ok(p[0])
  }

  /** Strictly increasing naturals spread out at least one apart. */
  lemma {:induction false} IncreasingSpread(p: seq<nat>)
    requires |p| > 0
    requires forall m, n :: 0 <= m < n < |p| ==> p[m] < p[n]
    ensures p[|p| - 1] >= p[0] + |p| - 1
  {
    if |p| > 1 {
      IncreasingSpread(p[..|p| - 1]);
    }
  }

  /** The converse of `Lookup`'s success case: a label carried by exactly one
      column is found, at that column. */
  lemma LookupFindsUnique(columns: seq<string>, j: nat)
    requires j < |columns|
    requires forall i :: 0 <= i < |columns| && i != j ==> columns[i] != columns[j]
    ensures Lookup(columns, columns[j]) == Ok(j)
  {
    var p := Positions(columns, columns[j]);
    assert j in p;
    assert forall m :: 0 <= m < |p| ==> p[m] == j;
    IncreasingSpread(p);
  }

  /** The order in which Python and pandas sort the cells of one column:
      numbers by value, strings code point by code point. A well-formed column
      never mixes numbers and strings; placing NaN first and numbers before
      strings only makes the order total. */
  predicate Less(a: Cell, b: Cell) {
    match a
    case Missing => !b.Missing?
    case Num(x) => (b.Num? && x < b.value) || b.Str?
    case Str(s) => b.Str? && StrLess(s, b.text)
  }

  lemma LessIrreflexive(a: Cell)
    ensures !Less(a, a)
  {
    if a.Str? {
      StrLessIrreflexive(a.text);
    }
  }

  lemma LessTransitive(a: Cell, b: Cell, c: Cell)
    requires Less(a, b) && Less(b, c)
    ensures Less(a, c)
  {
    if a.Str? {
      StrLessTransitive(a.text, b.text, c.text);
    }
  }

  lemma LessTotal(a: Cell, b: Cell)
    ensures a == b || Less(a, b) || Less(b, a)
  {
    if a.Str? && b.Str? {
      StrLessTotal(a.text, b.text);
    }
  }

  predicate StrictlyAscending(s: seq<Cell>) {
    forall i, j :: 0 <= i < j < |s| ==> Less(s[i], s[j])
  }

  /** Strictly ascending means no value occurs twice. */
  lemma AscendingDistinct(s: seq<Cell>)
    requires StrictlyAscending(s)
    ensures forall i, j :: 0 <= i < j < |s| ==> s[i] != s[j]
  {
    forall i, j | 0 <= i < j < |s|
      ensures s[i] != s[j]
    {
      LessIrreflexive(s[i]);
    }
  }

  lemma HeadBelowTail(s: seq<Cell>)
    requires StrictlyAscending(s) && |s| > 0
    ensures forall c :: c in s[1..] ==> Less(s[0], c)
  {
    forall c | c in s[1..]
      ensures Less(s[0], c)
    {
      var k :| 0 <= k < |s[1..]| && s[1..][k] == c;
      assert s[k + 1] == c;
    }
  }

  lemma ConsAscending(h: Cell, s: seq<Cell>)
    requires StrictlyAscending(s)
    requires forall c :: c in s ==> Less(h, c)
    ensures StrictlyAscending([h] + s)
  {
    var r := [h] + s;
    forall i, j | 0 <= i < j < |r|
      ensures Less(r[i], r[j])
    {
      if i == 0 {
        assert r[j] == s[j - 1];
      } else {
        assert r[i] == s[i - 1] && r[j] == s[j - 1];
      }
    }
  }

  lemma BelowHead(x: Cell, s: seq<Cell>)
    requires StrictlyAscending(s) && |s| > 0 && Less(x, s[0])
    ensures forall c :: c in s ==> Less(x, c)
  {
    forall c | c in s
      ensures Less(x, c)
    {
      var k :| 0 <= k < |s| && s[k] == c;
      if k > 0 {
        LessTransitive(x, s[0], c);
      }
    }
  }

  /** Puts `x` into its place in a strictly ascending sequence, unless it is
      already there. */
  function Insert(x: Cell, s: seq<Cell>): (r: seq<Cell>)
    requires StrictlyAscending(s)
    ensures StrictlyAscending(r)
    ensures forall c :: c in r <==> c == x || c in s
    decreases |s|
  {
    if |s| == 0 then [x]
    else if x == s[0] then s
    else
      HeadBelowTail(s);
      assert s == [s[0]] + s[1..];
      if Less(x, s[0]) then
        BelowHead(x, s);
        ConsAscending(x, s);
        [x] + s
      else
        LessTotal(x, s[0]);
        var rest := Insert(x, s[1..]);
        ConsAscending(s[0], rest);
        [s[0]] + rest
  }

  /** `sorted(column.dropna().unique())`: the distinct non-missing values,
      ascending. */
  function SortedUnique(cells: seq<Cell>): (r: seq<Cell>)
    ensures StrictlyAscending(r)
    ensures forall c :: c in r <==> c in cells && !c.Missing?
    decreases |cells|
  {
    if |cells| == 0 then []
    else
      var rest := SortedUnique(cells[..|cells| - 1]);
      var last := cells[|cells| - 1];
      assert cells == cells[..|cells| - 1] + [last];
      if last.Missing? then rest else Insert(last, rest)
  }

  /** Two strictly ascending sequences with the same elements are equal, so
      the contract of `SortedUnique` fixes its result completely. */
  lemma {:induction false} AscendingUnique(s: seq<Cell>, t: seq<Cell>)
    requires StrictlyAscending(s) && StrictlyAscending(t)
    requires forall c :: c in s <==> c in t
    ensures s == t
    decreases |s|
  {
    if |s| > 0 {
      assert s[0] in t;
    }
    if |t| > 0 {
      assert t[0] in s;
    }
    if |s| > 0 && |t| > 0 {
      HeadBelowTail(s);
      HeadBelowTail(t);
      assert s == [s[0]] + s[1..] && t == [t[0]] + t[1..];
      var k :| 0 <= k < |t| && t[k] == s[0];
      var m :| 0 <= m < |s| && s[m] == t[0];
      if k > 0 && m > 0 {
        LessTransitive(s[0], t[0], s[0]);
        LessIrreflexive(s[0]);
      }
      assert s[0] == t[0];
      {
        forall c
          ensures c in s[1..] <==> c in t[1..]
        {
          if c in s[1..] {
            assert c in t && Less(s[0], c);
            LessIrreflexive(c);
            assert c != t[0];
          }
          if c in t[1..] {
            assert c in s && Less(t[0], c);
            LessIrreflexive(c);
            assert c != s[0];
          }
        }
        AscendingUnique(s[1..], t[1..]);
      }
    }
  }
}
