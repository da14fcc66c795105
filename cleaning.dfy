/** The table operations of the cleaning tool, as functions from a table to a
    new table or an error: the extension and format checks, head, drop of
    columns, dropna, fillna with the column mean, median or a custom value,
    and the conversion of one column. */
module Cleaning {
  import opened Seqs
  import opened Tables
  import opened Text
  import Stats

  /** The file formats the tools read and write. */
  datatype Format = Csv | Xlsx

  /** The reader chosen for a path: by its (case-sensitive) extension. */
  function PathFormat(path: string): (f: Option<Format>)
    ensures f == Some(Csv) <==> EndsWith(path, ".csv")
    ensures f == Some(Xlsx) <==> EndsWith(path, ".xlsx")
    ensures f.None? <==> !EndsWith(path, ".csv") && !EndsWith(path, ".xlsx")
  {
    assert EndsWith(path, ".csv") ==> path[|path| - 1] == 'v';
    assert EndsWith(path, ".xlsx") ==> path[|path| - 1] == 'x';
    if EndsWith(path, ".csv") then Some(Csv)
    else if EndsWith(path, ".xlsx") then Some(Xlsx)
    else None
  }

  /** load_data of the CLI: hands the path to the reader of its format, or
      raises for any other extension. The reader itself is a parameter. */
  function LoadData(path: string, read: Format -> Result<Table>): (r: Result<Table>)
    ensures r == Err(UnsupportedFileFormat) <== !EndsWith(path, ".csv") && !EndsWith(path, ".xlsx")
    ensures EndsWith(path, ".csv") ==> r == read(Csv)
    ensures EndsWith(path, ".xlsx") ==> r == read(Xlsx)
  {
    match PathFormat(path)
    case None => Err(UnsupportedFileFormat)
    case Some(f) => read(f)
  }

  /** save_cleaned_data: the writer chosen for an output format name; any
      name but "csv" and "xlsx" raises. The writing itself is not modelled. */
  function SaveCleanedData(outputFormat: string): (r: Result<Format>)
    ensures r == Ok(Csv) <==> outputFormat == "csv"
    ensures r == Ok(Xlsx) <==> outputFormat == "xlsx"
    ensures r.Err? <==> outputFormat != "csv" && outputFormat != "xlsx"
    ensures r.Err? ==> r.error == UnsupportedOutputFormat
  {
    if outputFormat == "csv" then Ok(Csv)
    else if outputFormat == "xlsx" then Ok(Xlsx)
    else Err(UnsupportedOutputFormat)
  }

  // ---------------------------------------------------------------- head

  /** How many rows `head(n)` keeps out of len: the first n, or for a
      negative n all but the last -n. */
  function HeadLength(len: nat, n: int): (k: nat)
    ensures k <= len
    // n >= 0: the least of n and len
    ensures n >= 0 ==> k <= n && (k == n || k == len)
    // n < 0: len - (-n), but never below zero
    ensures n < 0 ==> k >= len + n && (k == 0 || k == len + n)
  {
    if n >= 0 then (if n < len then n else len)
    else if len + n > 0 then len + n else 0
  }

  /** preview_data: `df.head(n)`. */
  function PreviewData(t: Table, n: int): (r: Table)
    ensures r.cols == t.cols
    ensures |r.rows| == HeadLength(|t.rows|, n)
    ensures forall i :: 0 <= i < |r.rows| ==> r.rows[i] == t.rows[i]
    ensures WellFormed(t) ==> WellFormed(r)
  {
    Table(t.cols, t.rows[..HeadLength(|t.rows|, n)])
  }

  /** Two previews with non-negative counts are the preview by the smaller one. */
  lemma PreviewTwice(t: Table, n: nat, m: nat)
    ensures PreviewData(PreviewData(t, n), m) == PreviewData(t, if n < m then n else m)
  {
    var a := PreviewData(PreviewData(t, n), m);
    var b := PreviewData(t, if n < m then n else m);
    assert a.rows == b.rows;
  }

  // --------------------------------------------------------- drop columns

  /** The requested names the table does not have, in request order. */
  function NotFound(t: Table, names: seq<string>): seq<string> {
    Filter(names, n => n !in t.cols)
  }

  /** Whether a column survives removing names. */
  function Survives(names: seq<string>): string -> bool {
    c => c !in names
  }

  /** The positions of the columns that survive removing names. */
  function KeptColumns(t: Table, names: seq<string>): seq<nat> {
    Positions(t.cols, Survives(names), 0)
  }

  /** r is t restricted to the columns at positions ks, in that order, with
      every row kept. */
  predicate Projects(r: Table, t: Table, ks: seq<nat>)
    requires WellFormed(t) && WellFormed(r)
  {
    && |r.cols| == |ks|
    && (forall p :: 0 <= p < |ks| ==> ks[p] < |t.cols| && r.cols[p] == t.cols[ks[p]])
    && |r.rows| == |t.rows|
    && (forall i, p :: 0 <= i < |r.rows| && 0 <= p < |ks| ==> r.rows[i][p] == t.rows[i][ks[p]])
  }

  /** t restricted to the columns at the increasing positions ks. */
  function Project(t: Table, ks: seq<nat>): (r: Table)
    requires WellFormed(t)
    requires forall p :: 0 <= p < |ks| ==> ks[p] < |t.cols|
    requires forall p, q :: 0 <= p < q < |ks| ==> ks[p] < ks[q]
    ensures WellFormed(r) && Projects(r, t, ks)
  {
    Table(Pick(t.cols, ks), seq(|t.rows|, i requires 0 <= i < |t.rows| => Pick(t.rows[i], ks)))
  }

  /** The columns kept by KeptColumns are exactly the ones not named. */
  lemma KeptColumnNames(t: Table, names: seq<string>)
    requires WellFormed(t)
    ensures var ks := KeptColumns(t, names);
      forall c :: c in Pick(t.cols, ks) <==> c in t.cols && c !in names
  {
    var ks := KeptColumns(t, names);
    PositionsComplete(t.cols, Survives(names), 0);
    var kept := Pick(t.cols, ks);
    forall c | c in t.cols && c !in names ensures c in kept {
      var j :| 0 <= j < |t.cols| && t.cols[j] == c;
      var p :| 0 <= p < |ks| && ks[p] == j;
      assert kept[p] == c;
    }
  }

  /** The request names every column it removes exactly when NotFound is empty. */
  lemma NotFoundEmpty(t: Table, names: seq<string>)
    ensures |NotFound(t, names)| > 0 <==> exists k :: 0 <= k < |names| && names[k] !in t.cols
  {
    var missing := NotFound(t, names);
    if |missing| > 0 {
      assert missing[0] in missing;
    } else {
      forall k | 0 <= k < |names| ensures names[k] in t.cols {
        assert names[k] in names;
      }
    }
  }

  /** remove_columns: `df.drop(columns=names)`. Raises, listing them, when a
      requested name is not a column; otherwise every other column is kept,
      in order, with its cells. */
  function RemoveColumns(t: Table, names: seq<string>): (r: Result<Table>)
    requires WellFormed(t)
    ensures r.Err? <==> exists k :: 0 <= k < |names| && names[k] !in t.cols
    ensures r.Err? ==> r.error == ColumnsNotFound(NotFound(t, names))
    ensures r.Ok? ==> WellFormed(r.value)
    ensures r.Ok? ==> forall c :: c in r.value.cols <==> c in t.cols && c !in names
    ensures r.Ok? ==> Projects(r.value, t, KeptColumns(t, names))
  {
    NotFoundEmpty(t, names);
    var missing := NotFound(t, names);
    if |missing| > 0 then Err(ColumnsNotFound(missing))
    else
      KeptColumnNames(t, names);
      Ok(Project(t, KeptColumns(t, names)))
  }

  /** Projecting onto every position in order gives the table back. */
  lemma ProjectEvery(t: Table, ks: seq<nat>)
    requires WellFormed(t)
    requires |ks| == |t.cols| && forall p :: 0 <= p < |ks| ==> ks[p] == p
    ensures Project(t, ks) == t
  {
    var r := Project(t, ks);
    assert r.cols == t.cols;
    forall i | 0 <= i < |t.rows| ensures r.rows[i] == t.rows[i] {
      assert |r.rows[i]| == |t.rows[i]|;
    }
  }

  /** Removing no columns gives the table back. */
  lemma RemoveNoColumns(t: Table)
    requires WellFormed(t)
    ensures RemoveColumns(t, []) == Ok(t)
  {
    var ks := KeptColumns(t, []);
    assert NotFound(t, []) == [];
    PositionsOfAllKept(t.cols, Survives([]), 0);
    ProjectEvery(t, ks);
  }

  // --------------------------------------------------------------- dropna

  /** The positions of the rows without a missing cell. */
  function CompleteRows(t: Table): seq<nat> {
    Positions(t.rows, Complete, 0)
  }

  predicate NoMissing(t: Table) {
    forall i :: 0 <= i < |t.rows| ==> Complete(t.rows[i])
  }

  /** filter_missing_values: `df.dropna()`, the rows without a missing cell,
      in their original order. */
  function FilterMissingValues(t: Table): (r: Table)
    ensures r.cols == t.cols
    ensures NoMissing(r)
    ensures |r.rows| == |CompleteRows(t)|
    ensures forall p :: 0 <= p < |r.rows| ==> r.rows[p] == t.rows[CompleteRows(t)[p]]
    ensures forall row :: row in t.rows && Complete(row) ==> row in r.rows
    ensures WellFormed(t) ==> WellFormed(r)
  {
    var r := Table(t.cols, Filter(t.rows, Complete));
    assert forall i :: 0 <= i < |r.rows| ==> Complete(r.rows[i]) by {
      forall i | 0 <= i < |r.rows| ensures Complete(r.rows[i]) {
        assert r.rows[i] in r.rows;
      }
    }
    r
  }

  /** dropna twice is dropna once. */
  lemma FilterMissingIdempotent(t: Table)
    ensures FilterMissingValues(FilterMissingValues(t)) == FilterMissingValues(t)
  {
    FilterIdempotent(t.rows, Complete);
  }

  /** dropna keeps a table exactly when it has no missing cell. */
  lemma FilterMissingKeeps(t: Table)
    ensures FilterMissingValues(t) == t <==> NoMissing(t)
  {
    if NoMissing(t) {
      FilterAllKept(t.rows, Complete);
    }
  }

  // --------------------------------------------------------------- fillna

  /** `row.fillna(values)`: each missing cell takes its column's value. */
  function FillRow(row: Row, values: seq<Cell>): (r: Row)
    requires |row| == |values|
    ensures |r| == |row|
    ensures forall k :: 0 <= k < |row| ==> r[k] == if row[k].Missing? then values[k] else row[k]
  {
    if |row| == 0 then []
    else [if row[0].Missing? then values[0] else row[0]] + FillRow(row[1..], values[1..])
  }

  /** `df.fillna(values)` with one fill value per column. */
  function FillNa(t: Table, values: seq<Cell>): (r: Table)
    requires WellFormed(t) && |values| == |t.cols|
    ensures WellFormed(r) && r.cols == t.cols && |r.rows| == |t.rows|
    ensures forall i, k :: 0 <= i < |t.rows| && 0 <= k < |t.cols| ==>
      r.rows[i][k] == if t.rows[i][k].Missing? then values[k] else t.rows[i][k]
  {
    Table(t.cols, seq(|t.rows|, i requires 0 <= i < |t.rows| => FillRow(t.rows[i], values)))
  }

  // ------------------------------------------------------- column statistics

  predicate Numeric(c: Cell) {
    c.Int? || c.Num?
  }

  function Value(c: Cell): real
    requires Numeric(c)
  {
    if c.Int? then c.i as real else c.x
  }

  /** A column pandas can average: every present cell is a number. */
  predicate NumericColumn(col: seq<Cell>) {
    forall k :: 0 <= k < |col| ==> col[k].Missing? || Numeric(col[k])
  }

  /** The numbers of a numeric column, top to bottom, skipping missing cells. */
  function Values(col: seq<Cell>): (xs: seq<real>)
    requires NumericColumn(col)
    ensures |xs| + CountMissing(col) == |col|
  {
    if |col| == 0 then []
    else
      var front := col[..|col| - 1];
      var xs := Values(front);
      if col[|col| - 1].Missing? then xs else xs + [Value(col[|col| - 1])]
  }

  /** Values holds the value of every present cell and nothing else. */
  lemma {:induction false} ValuesMembers(col: seq<Cell>)
    requires NumericColumn(col)
    ensures forall k :: 0 <= k < |col| && Present(col[k]) ==> Value(col[k]) in Values(col)
    ensures forall x :: x in Values(col) ==> exists k :: 0 <= k < |col| && Present(col[k]) && Value(col[k]) == x
  {
    if |col| > 0 {
      var front := col[..|col| - 1];
      ValuesMembers(front);
      assert forall k :: 0 <= k < |front| ==> front[k] == col[k];
    }
  }

  datatype Statistic = MeanOf | MedianOf

  function Apply(st: Statistic, xs: seq<real>): real
    requires |xs| > 0
  {
    match st
    case MeanOf => Stats.Mean(xs)
    case MedianOf => Stats.Median(xs)
  }

  /** The value fillna puts into a column's missing cells: the statistic of its
      numbers, or the missing marker itself when the column has none. A
      statistic is a number within every range that holds all the numbers. */
  function FillValue(col: seq<Cell>, st: Statistic): (v: Cell)
    requires NumericColumn(col)
    ensures v.Missing? <==> |Values(col)| == 0
    ensures v.Num? || v.Missing?
    ensures v.Num? ==> forall lo, hi :: Stats.Within(Values(col), lo, hi) ==> lo <= v.x <= hi
  {
    var xs := Values(col);
    if |xs| == 0 then Missing
    else
      var x := Apply(st, xs);
      assert forall lo, hi :: Stats.Within(xs, lo, hi) ==> lo <= x <= hi by {
        forall lo, hi | Stats.Within(xs, lo, hi) ensures lo <= x <= hi {
          if st == MeanOf {
            Stats.MeanBounds(xs, lo, hi);
          } else {
            Stats.MedianBounds(xs, lo, hi);
          }
        }
      }
      Num(x)
  }

  /** The first column at or after position j that is not numeric. */
  function FirstNonNumeric(t: Table, j: nat): (k: Option<nat>)
    requires WellFormed(t) && j <= |t.cols|
    decreases |t.cols| - j
    ensures k.None? <==> forall c :: j <= c < |t.cols| ==> NumericColumn(Column(t, c))
    ensures k.Some? ==> j <= k.value < |t.cols| && !NumericColumn(Column(t, k.value))
  {
    if j == |t.cols| then None
    else if !NumericColumn(Column(t, j)) then Some(j)
    else FirstNonNumeric(t, j + 1)
  }

  /** `df.mean()` / `df.median()`: one fill value per column; raises when a
      column holds text. */
  function ColumnStats(t: Table, st: Statistic): (r: Result<seq<Cell>>)
    requires WellFormed(t)
    ensures r.Err? <==> exists j :: 0 <= j < |t.cols| && !NumericColumn(Column(t, j))
    ensures r.Err? ==> exists j :: 0 <= j < |t.cols| && !NumericColumn(Column(t, j)) && r.error == NonNumericColumn(t.cols[j])
    ensures r.Ok? ==> |r.value| == |t.cols|
    ensures r.Ok? ==> forall j :: 0 <= j < |t.cols| ==> r.value[j] == FillValue(Column(t, j), st)
  {
    match FirstNonNumeric(t, 0)
    case Some(j) => Err(NonNumericColumn(t.cols[j]))
    case None => Ok(seq(|t.cols|, j requires 0 <= j < |t.cols| => FillValue(Column(t, j), st)))
  }

  /** replace_missing_values: fillna with the column means, the column
      medians or one custom value; any other method, or "custom" without a
      value, raises. */
  function ReplaceMissingValues(t: Table, how: string, customValue: Option<Cell>): (r: Result<Table>)
    requires WellFormed(t)
    ensures r == Err(InvalidReplacement) <==>
      how != "mean" && how != "median" && !(how == "custom" && customValue.Some?)
    ensures how == "mean" ==> r.Err? == ColumnStats(t, MeanOf).Err?
    ensures how == "median" ==> r.Err? == ColumnStats(t, MedianOf).Err?
    ensures how == "custom" && customValue.Some? ==> r.Ok?
    ensures r.Ok? ==> WellFormed(r.value) && r.value.cols == t.cols && |r.value.rows| == |t.rows|
    ensures r.Ok? ==> forall i, k :: 0 <= i < |t.rows| && 0 <= k < |t.cols| && Present(t.rows[i][k]) ==>
      r.value.rows[i][k] == t.rows[i][k]
  {
    if how == "mean" then
      match ColumnStats(t, MeanOf)
      case Err(e) => Err(e)
      case Ok(values) => Ok(FillNa(t, values))
    else if how == "median" then
      match ColumnStats(t, MedianOf)
      case Err(e) => Err(e)
      case Ok(values) => Ok(FillNa(t, values))
    else if how == "custom" && customValue.Some? then
      Ok(FillNa(t, seq(|t.cols|, _ => customValue.value)))
    else Err(InvalidReplacement)
  }

  /** A custom fill leaves no missing cell (for a value that is not itself
      the marker) and puts that value exactly where cells were missing. */
  lemma CustomFill(t: Table, v: Cell)
    requires WellFormed(t)
    ensures var r := ReplaceMissingValues(t, "custom", Some(v));
      && r.Ok?
      && (v != Missing ==> NoMissing(r.value))
      && forall i, k :: 0 <= i < |t.rows| && 0 <= k < |t.cols| ==>
           r.value.rows[i][k] == if t.rows[i][k].Missing? then v else t.rows[i][k]
  {
    var r := ReplaceMissingValues(t, "custom", Some(v)).value;
    if v != Missing {
      forall i | 0 <= i < |r.rows| ensures Complete(r.rows[i]) {
        forall k | 0 <= k < |r.rows[i]| ensures r.rows[i][k] != Missing {
        }
      }
    }
  }

  /** The statistic a fill method names. */
  function StatisticOf(how: string): Statistic {
    if how == "mean" then MeanOf else MedianOf
  }

  /** A mean or median fill keeps present cells and gives a missing cell the
      fill value of its column. */
  lemma StatisticFillValue(t: Table, how: string, i: nat, k: nat)
    requires WellFormed(t) && (how == "mean" || how == "median")
    requires i < |t.rows| && k < |t.cols|
    requires ReplaceMissingValues(t, how, None).Ok?
    ensures NumericColumn(Column(t, k))
    ensures ReplaceMissingValues(t, how, None).value.rows[i][k] ==
      if Present(t.rows[i][k]) then t.rows[i][k] else FillValue(Column(t, k), StatisticOf(how))
  {
    assert ColumnStats(t, StatisticOf(how)).Ok?;
  }

  /** A mean or median fill puts into every missing cell the statistic of its
      column's numbers (mean: their arithmetic mean; median: the middle of
      them in sorted order), or leaves it missing when its column has none. */
  lemma StatisticFill(t: Table, how: string, i: nat, k: nat)
    requires WellFormed(t) && (how == "mean" || how == "median")
    requires i < |t.rows| && k < |t.cols|
    requires ReplaceMissingValues(t, how, None).Ok?
    ensures NumericColumn(Column(t, k))
    ensures var cell := ReplaceMissingValues(t, how, None).value.rows[i][k];
      var xs := Values(Column(t, k));
      && (Present(t.rows[i][k]) ==> cell == t.rows[i][k])
      && (t.rows[i][k].Missing? && |xs| == 0 ==> cell == Missing)
      && (t.rows[i][k].Missing? && |xs| > 0 && how == "mean" ==> cell == Num(Stats.Sum(xs) / (|xs| as real)))
      && (t.rows[i][k].Missing? && |xs| > 0 && how == "median" ==> cell == Num(Stats.Middle(Stats.Sort(xs))))
  {
    StatisticFillValue(t, how, i, k);
  }

  /** A column's fill value is the missing marker exactly when every cell of
      the column is missing. */
  lemma FillValueMissing(col: seq<Cell>, st: Statistic)
    requires NumericColumn(col)
    ensures FillValue(col, st).Missing? <==> forall c :: 0 <= c < |col| ==> col[c].Missing?
  {
    var xs := Values(col);
    if |xs| == 0 {
      CountAllMissing(col);
    } else {
      ValuesMembers(col);
      assert xs[0] in xs;
      var k :| 0 <= k < |col| && Present(col[k]) && Value(col[k]) == xs[0];
      assert !col[k].Missing?;
    }
  }

  /** After a mean or median fill, a cell is missing exactly when it was and
      its column has no number at all. */
  lemma StatisticFillMissing(t: Table, how: string, r: Table, i: nat, k: nat)
    requires WellFormed(t) && (how == "mean" || how == "median")
    requires i < |t.rows| && k < |t.cols|
    requires ReplaceMissingValues(t, how, None) == Ok(r)
    ensures r.rows[i][k].Missing? <==>
      t.rows[i][k].Missing? && forall c :: 0 <= c < |t.rows| ==> t.rows[c][k].Missing?
  {
    StatisticFillValue(t, how, i, k);
    var col := Column(t, k);
    FillValueMissing(col, StatisticOf(how));
    if forall c :: 0 <= c < |t.rows| ==> t.rows[c][k].Missing? {
      assert forall c :: 0 <= c < |col| ==> col[c].Missing?;
    } else {
      var c :| 0 <= c < |t.rows| && !t.rows[c][k].Missing?;
      assert !col[c].Missing?;
    }
  }

  /** A sequence of cells every one of which is counted as missing is all missing. */
  lemma {:induction false} CountAllMissing(col: seq<Cell>)
    requires CountMissing(col) == |col|
    ensures forall c :: 0 <= c < |col| ==> col[c].Missing?
  {
    if |col| > 0 {
      var front := col[..|col| - 1];
      assert Count(col, IsMissing) == Count(front, IsMissing) + (if IsMissing(col[|col| - 1]) then 1 else 0);
      CountAllMissing(front);
    }
  }

  // ----------------------------------------------------- change data types

  /** pandas' type conversion: which type names `astype` understands, and
      the result of converting one cell to a named type, or None when the
      cell cannot be converted. */
  datatype Converter = Converter(understood: string -> bool, cast: (string, Cell) -> Option<Cell>)

  /** `col.astype(newType)`: None for a type name pandas does not understand,
      whatever the cells; otherwise every cell converted, or None if any
      cell fails. */
  function ConvertAll(col: seq<Cell>, newType: string, conv: Converter): (r: Option<seq<Cell>>)
    ensures r.Some? <==> conv.understood(newType) && forall k :: 0 <= k < |col| ==> conv.cast(newType, col[k]).Some?
    ensures r.Some? ==> |r.value| == |col| && forall k :: 0 <= k < |col| ==> r.value[k] == conv.cast(newType, col[k]).value
  {
    if !conv.understood(newType) then None
    else if |col| == 0 then Some([])
    else
      var head := conv.cast(newType, col[0]);
      var rest := ConvertAll(col[1..], newType, conv);
      if head.Some? && rest.Some? then Some([head.value] + rest.value)
      else
        assert head.None? || exists k :: 0 <= k < |col[1..]| && conv.cast(newType, col[1..][k]).None?;
        None
  }

  /** The table with column j replaced by col. */
  function WithColumn(t: Table, j: nat, col: seq<Cell>): (r: Table)
    requires WellFormed(t) && j < |t.cols| && |col| == |t.rows|
    ensures WellFormed(r) && r.cols == t.cols && |r.rows| == |t.rows|
    ensures forall i, k :: 0 <= i < |t.rows| && 0 <= k < |t.cols| ==>
      r.rows[i][k] == if k == j then col[i] else t.rows[i][k]
  {
    Table(t.cols, seq(|t.rows|, i requires 0 <= i < |t.rows| => t.rows[i][j := col[i]]))
  }

  /** `df[column] = df[column].astype(newType)` as a value: an unknown
      column, a type name pandas does not understand, or a cell that does
      not convert raises and gives no table; otherwise exactly that column's
      cells are converted. The column is looked up before the type name is
      read. */
  function ChangedTable(t: Table, column: string, newType: string, conv: Converter): (r: Result<Table>)
    requires WellFormed(t)
    ensures column !in t.cols ==> r == Err(UnknownColumn(column))
    ensures column in t.cols && !conv.understood(newType) ==> r == Err(UnknownType(newType))
    ensures column in t.cols && conv.understood(newType) ==>
      (r.Ok? <==> forall i :: 0 <= i < |t.rows| ==> conv.cast(newType, t.rows[i][IndexOf(t.cols, column).value]).Some?)
    ensures column in t.cols && conv.understood(newType) && r.Err? ==> r.error == ConversionFailed(column)
    ensures r.Ok? ==> WellFormed(r.value) && r.value.cols == t.cols && |r.value.rows| == |t.rows|
    ensures r.Ok? ==> forall i, k :: 0 <= i < |t.rows| && 0 <= k < |t.cols| ==>
      r.value.rows[i][k] == if t.cols[k] == column then conv.cast(newType, t.rows[i][k]).value else t.rows[i][k]
  {
    match IndexOf(t.cols, column)
    case None => Err(UnknownColumn(column))
    case Some(j) =>
      if !conv.understood(newType) then Err(UnknownType(newType))
      else
      match ConvertAll(Column(t, j), newType, conv)
      case None => Err(ConversionFailed(column))
      case Some(col) =>
        assert forall k :: 0 <= k < |t.cols| ==> (t.cols[k] == column <==> k == j);
        Ok(WithColumn(t, j, col))
  }

  /** Converting a column to a type its cells already have changes nothing. */
  lemma ChangeToOwnType(t: Table, column: string, newType: string, conv: Converter)
    requires WellFormed(t) && column in t.cols && conv.understood(newType)
    requires var j := IndexOf(t.cols, column).value;
      forall i :: 0 <= i < |t.rows| ==> conv.cast(newType, t.rows[i][j]) == Some(t.rows[i][j])
    ensures ChangedTable(t, column, newType, conv) == Ok(t)
  {
    var r := ChangedTable(t, column, newType, conv).value;
    assert forall i :: 0 <= i < |t.rows| ==> r.rows[i] == t.rows[i];
    assert r.rows == t.rows;
  }

  /** With a conversion that leaves converted cells as they are, converting
      a column twice is converting it once. */
  lemma ChangeTypeIdempotent(t: Table, column: string, newType: string, conv: Converter)
    requires WellFormed(t)
    requires forall c :: conv.cast(newType, c).Some? ==> conv.cast(newType, conv.cast(newType, c).value) == conv.cast(newType, c)
    requires ChangedTable(t, column, newType, conv).Ok?
    ensures ChangedTable(ChangedTable(t, column, newType, conv).value, column, newType, conv)
         == ChangedTable(t, column, newType, conv)
  {
    var once := ChangedTable(t, column, newType, conv).value;
    var j := IndexOf(t.cols, column).value;
    assert forall i :: 0 <= i < |once.rows| ==> conv.cast(newType, once.rows[i][j]) == Some(once.rows[i][j]);
    ChangeToOwnType(once, column, newType, conv);
  }

  /** An age column 25, missing, 35 filled with its mean: the gap becomes 30. */
  lemma MeanFillExample()
    ensures var t := Table(["age"], [[Num(25.0)], [Missing], [Num(35.0)]]);
      WellFormed(t) &&
      ReplaceMissingValues(t, "mean", None) == Ok(Table(["age"], [[Num(25.0)], [Num(30.0)], [Num(35.0)]]))
  {
    var t := Table(["age"], [[Num(25.0)], [Missing], [Num(35.0)]]);
    assert ColumnStats(t, MeanOf) == Ok([Num(30.0)]) by {
      ExampleColumnStats(t);
    }
    assert ReplaceMissingValues(t, "mean", None) == Ok(FillNa(t, [Num(30.0)]));
    ExampleFillNa(t);
  }

  /** The fill step of MeanFillExample: 30 goes into the one missing cell. */
  lemma ExampleFillNa(t: Table)
    requires t == Table(["age"], [[Num(25.0)], [Missing], [Num(35.0)]])
    ensures FillNa(t, [Num(30.0)]) == Table(["age"], [[Num(25.0)], [Num(30.0)], [Num(35.0)]])
  {
    var r := FillNa(t, [Num(30.0)]);
    assert r.rows[0] == [Num(25.0)] && r.rows[1] == [Num(30.0)] && r.rows[2] == [Num(35.0)];
  }

  /** The statistics step of MeanFillExample: the column's mean is 30. */
  lemma ExampleColumnStats(t: Table)
    requires t == Table(["age"], [[Num(25.0)], [Missing], [Num(35.0)]])
    ensures ColumnStats(t, MeanOf) == Ok([Num(30.0)])
  {
    var col := Column(t, 0);
    assert col == [Num(25.0), Missing, Num(35.0)];
    ExampleFillValue(col);
    assert FirstNonNumeric(t, 0) == None;
    var cs := ColumnStats(t, MeanOf);
    assert cs.Ok? && |cs.value| == 1 && cs.value[0] == Num(30.0);
    assert cs.value == [Num(30.0)];
  }

  /** The numbers of the example column are 25 and 35, so its mean is 30. */
  lemma ExampleFillValue(col: seq<Cell>)
    requires col == [Num(25.0), Missing, Num(35.0)]
    ensures NumericColumn(col) && FillValue(col, MeanOf) == Num(30.0)
  {
    assert col[..|col| - 1] == [Num(25.0), Missing];
    assert col[..|col| - 1][..1] == [Num(25.0)];
    assert [Num(25.0)][..0] == [];
    assert Values(col[..1]) == [25.0];
    assert Values(col[..2]) == [25.0];
    assert Values(col) == [25.0, 35.0];
    var xs := [25.0, 35.0];
    assert xs[..1] == [25.0] && [25.0][..0] == [];
    assert Stats.Sum(xs) == 60.0;
  }
}
