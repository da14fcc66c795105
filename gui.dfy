/** The web front-end's cleaning page. The cleaned frame lives in the
    session state across reruns of the page: it is copied from the uploaded
    frame on the first run only, and each button then changes it in place. */
module Gui {
  import opened Tables
  import opened Cleaning
  import opened Frames

  /** The options of the change-type select box, in the order it lists them. */
  const OfferedTypes: seq<string> := ["int", "float", "str", "datetime"]

  /** The types the change-type select box offers. */
  function OfferedType(newType: string): (b: bool)
    ensures b <==> newType in OfferedTypes
  {
    newType == "int" || newType == "float" || newType == "str" || newType == "datetime"
  }

  /** The page never passes a type name to pandas: each offered type has its
      own call (`astype(int)`, `astype(float)`, `astype(str)`,
      `pd.to_datetime`), so none of them can be a name pandas does not know. */
  predicate UnderstandsOffered(conv: Converter) {
    conv.understood("int") && conv.understood("float") && conv.understood("str") && conv.understood("datetime")
  }

  /** The button pressed on one run of the page, with the widget values it reads. */
  datatype Action =
    | NoAction
    | RemoveSelected(columns: seq<string>)
    | DropMissingRows
    | FillMean
    | FillMedian
    | FillCustom(value: string)
    | ChangeType(column: string, newType: string)

  /** `df.fillna(df.mean())` or `df.fillna(df.median())`: raises, naming a
      column, when some column holds text; otherwise each missing cell takes
      its column's statistic and every present cell is kept. */
  function FillStatistic(t: Table, st: Statistic): (r: Result<Table>)
    requires WellFormed(t)
    ensures r.Err? <==> exists j :: 0 <= j < |t.cols| && !NumericColumn(Column(t, j))
    ensures r.Err? ==> exists j :: 0 <= j < |t.cols| && !NumericColumn(Column(t, j)) && r.error == NonNumericColumn(t.cols[j])
    ensures r.Ok? ==> WellFormed(r.value) && r.value.cols == t.cols && |r.value.rows| == |t.rows|
    ensures r.Ok? ==> forall i, k :: 0 <= i < |t.rows| && 0 <= k < |t.cols| ==>
      NumericColumn(Column(t, k)) &&
      r.value.rows[i][k] == if t.rows[i][k].Missing? then FillValue(Column(t, k), st) else t.rows[i][k]
  {
    match ColumnStats(t, st)
    case Err(e) => Err(e)
    case Ok(values) => Ok(FillNa(t, values))
  }

  /** `df.fillna(value)` with the text typed in the box. */
  function FillText(t: Table, value: string): (r: Table)
    requires WellFormed(t)
    ensures WellFormed(r) && r.cols == t.cols && |r.rows| == |t.rows|
    ensures forall i, k :: 0 <= i < |t.rows| && 0 <= k < |t.cols| ==>
      r.rows[i][k] == if t.rows[i][k].Missing? then Str(value) else t.rows[i][k]
  {
    FillNa(t, seq(|t.cols|, _ => Str(value)))
  }

  /** The cleaned table after one action, or the error it raises; the table
      then stays as it was. Only removal changes the columns, and no action
      adds a row. A type the select box does not offer matches no branch
      and changes nothing. */
  function ActionResult(t: Table, a: Action, conv: Converter): (r: Result<Table>)
    requires WellFormed(t) && UnderstandsOffered(conv)
    ensures r.Ok? ==> WellFormed(r.value) && |r.value.rows| <= |t.rows|
    ensures r.Ok? ==> forall c :: c in r.value.cols ==> c in t.cols
    ensures r.Ok? && !a.RemoveSelected? ==> r.value.cols == t.cols
    ensures a.NoAction? || a.DropMissingRows? || a.FillCustom? ==> r.Ok?
    ensures a.ChangeType? && !OfferedType(a.newType) ==> r == Ok(t)
    ensures r.Err? ==> !r.error.UnknownType?
  {
    match a
    case NoAction => Ok(t)
    case RemoveSelected(columns) => RemoveColumns(t, columns)
    case DropMissingRows => Ok(FilterMissingValues(t))
    case FillMean => FillStatistic(t, MeanOf)
    case FillMedian => FillStatistic(t, MedianOf)
    case FillCustom(value) => Ok(FillText(t, value))
    case ChangeType(column, newType) =>
      if OfferedType(newType) then ChangedTable(t, column, newType, conv) else Ok(t)
  }

  /** The page's fills do what the command-line tool's do. */
  lemma FillsMatchCommandLine(t: Table, value: string)
    requires WellFormed(t)
    ensures FillStatistic(t, MeanOf) == ReplaceMissingValues(t, "mean", None)
    ensures FillStatistic(t, MedianOf) == ReplaceMissingValues(t, "median", None)
    ensures Ok(FillText(t, value)) == ReplaceMissingValues(t, "custom", Some(Str(value)))
  {
    assert seq(|t.cols|, _ => Str(value)) == seq(|t.cols|, _ => Some(Str(value)).value);
  }

  /** Columns picked from the table's own columns, as the multiselect offers
      them, can always be removed. */
  lemma SelectedColumnsRemovable(t: Table, columns: seq<string>, conv: Converter)
    requires WellFormed(t) && UnderstandsOffered(conv)
    requires forall k :: 0 <= k < |columns| ==> columns[k] in t.cols
    ensures ActionResult(t, RemoveSelected(columns), conv).Ok?
    ensures forall c :: c in ActionResult(t, RemoveSelected(columns), conv).value.cols <==>
      c in t.cols && c !in columns
  {
  }

  /** After a custom fill no cell is missing. */
  lemma CustomFillCompletes(t: Table, value: string, conv: Converter)
    requires WellFormed(t) && UnderstandsOffered(conv)
    ensures NoMissing(ActionResult(t, FillCustom(value), conv).value)
  {
    var r := FillText(t, value);
    assert ActionResult(t, FillCustom(value), conv) == Ok(r);
    forall i | 0 <= i < |r.rows| ensures Complete(r.rows[i]) {
      forall k | 0 <= k < |r.rows[i]| ensures r.rows[i][k] != Missing {
      }
    }
  }

  /** Pressing "Remove Missing Rows" a second time changes nothing. */
  lemma DropMissingRowsTwice(t: Table, conv: Converter)
    requires WellFormed(t) && UnderstandsOffered(conv)
    ensures var once := ActionResult(t, DropMissingRows, conv).value;
      ActionResult(once, DropMissingRows, conv) == Ok(once)
  {
    FilterMissingIdempotent(t);
  }

  class CleaningSession {
    /** `st.session_state.cleaned_df`; null while the key is absent. */
    var cleaned: DataFrame?

    ghost predicate Valid()
      reads this, cleaned
    {
      cleaned != null ==> cleaned.Valid()
    }

    /** A new browser session has no cleaned frame yet. */
    constructor ()
      ensures Valid() && cleaned == null
    {
      cleaned := null;
    }

    /** The first run copies the uploaded frame; later runs keep the cleaned one. */
    method Enter(df: DataFrame)
      requires Valid() && df.Valid()
      modifies this
      ensures Valid() && cleaned != null
      ensures old(cleaned) != null ==> cleaned == old(cleaned) && cleaned.table == old(cleaned.table)
      ensures old(cleaned) == null ==> fresh(cleaned) && cleaned.table == df.table
    {
      if cleaned == null {
        cleaned := df.Copy();
      }
    }

    /** "Remove Selected Columns". */
    method RemoveSelected(columns: seq<string>) returns (o: Outcome)
      requires Valid() && cleaned != null
      modifies cleaned
      ensures Valid()
      ensures RemoveColumns(old(cleaned.table), columns).Ok? ==>
        o == Pass && cleaned.table == RemoveColumns(old(cleaned.table), columns).value
      ensures RemoveColumns(old(cleaned.table), columns).Err? ==>
        o == Fail(RemoveColumns(old(cleaned.table), columns).error) && cleaned.table == old(cleaned.table)
    {
      o := cleaned.DropColumns(columns);
    }

    /** "Remove Missing Rows". */
    method DropMissingRows()
      requires Valid() && cleaned != null
      modifies cleaned
      ensures Valid() && cleaned.table == FilterMissingValues(old(cleaned.table))
    {
      cleaned.DropNa();
    }

    /** "Replace Missing Values with Mean" / "... with Median". */
    method FillWithStatistic(st: Statistic) returns (o: Outcome)
      requires Valid() && cleaned != null
      modifies cleaned
      ensures Valid()
      ensures FillStatistic(old(cleaned.table), st).Ok? ==>
        o == Pass && cleaned.table == FillStatistic(old(cleaned.table), st).value
      ensures FillStatistic(old(cleaned.table), st).Err? ==>
        o == Fail(FillStatistic(old(cleaned.table), st).error) && cleaned.table == old(cleaned.table)
    {
      match ColumnStats(cleaned.table, st)
      case Err(e) =>
        o := Fail(e);
      case Ok(values) =>
        cleaned.FillNa(values);
        o := Pass;
    }

    /** "Replace Missing Values with Custom Value". */
    method FillWithText(value: string)
      requires Valid() && cleaned != null
      modifies cleaned
      ensures Valid() && cleaned.table == FillText(old(cleaned.table), value)
    {
      cleaned.FillNa(seq(|cleaned.table.cols|, _ => Str(value)));
    }

    /** "Change Data Type": the conversion is inside a try block, so its
        error is reported and the frame stays as it was. */
    method ChangeType(column: string, newType: string, conv: Converter) returns (o: Outcome)
      requires Valid() && cleaned != null && UnderstandsOffered(conv)
      modifies cleaned
      ensures Valid()
      ensures !OfferedType(newType) ==> o == Pass && cleaned.table == old(cleaned.table)
      ensures OfferedType(newType) && ChangedTable(old(cleaned.table), column, newType, conv).Ok? ==>
        o == Pass && cleaned.table == ChangedTable(old(cleaned.table), column, newType, conv).value
      ensures OfferedType(newType) && ChangedTable(old(cleaned.table), column, newType, conv).Err? ==>
        o == Fail(ChangedTable(old(cleaned.table), column, newType, conv).error) &&
        cleaned.table == old(cleaned.table)
      ensures o.Fail? ==> !o.error.UnknownType?
    {
      if OfferedType(newType) {
        o := cleaned.AsType(column, newType, conv);
      } else {
        o := Pass;
      }
    }

    /** One run of data_cleaning_tool with the freshly loaded frame df and
        the button pressed on that run. */
    method Rerun(df: DataFrame, a: Action, conv: Converter) returns (o: Outcome)
      requires Valid() && df.Valid() && cleaned != df && UnderstandsOffered(conv)
      modifies this, cleaned
      ensures Valid() && cleaned != null
      ensures old(cleaned) != null ==> cleaned == old(cleaned)
      ensures old(cleaned) == null ==> fresh(cleaned)
      ensures df.table == old(df.table)
      ensures var before := if old(cleaned) == null then df.table else old(cleaned.table);
        match ActionResult(before, a, conv)
        case Ok(t) => o == Pass && cleaned.table == t
        case Err(e) => o == Fail(e) && cleaned.table == before
    {
      Enter(df);
      match a
      case NoAction =>
        o := Pass;
      case RemoveSelected(columns) =>
        o := RemoveSelected(columns);
      case DropMissingRows =>
        DropMissingRows();
        o := Pass;
      case FillMean =>
        o := FillWithStatistic(MeanOf);
      case FillMedian =>
        o := FillWithStatistic(MedianOf);
      case FillCustom(value) =>
        FillWithText(value);
        o := Pass;
      case ChangeType(column, newType) =>
        o := ChangeType(column, newType, conv);
    }
  }
}
