/** The in-memory table both tools clean: an ordered list of unique column
    names and rows of cells, every row as wide as the list of names. */
module Tables {
  import opened Seqs

  datatype Option<T> = None | Some(value: T)

  /** The failures the tools raise (the CLI) or report (the web front-end). */
  datatype Error =
    | UnsupportedFileFormat               // load_data: extension other than .csv / .xlsx
    | UnsupportedOutputFormat             // save_cleaned_data: format other than "csv" / "xlsx"
    | ColumnsNotFound(names: seq<string>) // drop(columns=...): the requested names that do not exist
    | UnknownColumn(name: string)         // df[column] on a column that does not exist
    | InvalidReplacement                  // replace_missing_values: unknown method or no custom value
    | NonNumericColumn(name: string)      // df.mean() / df.median() over a column holding text
    | UnknownType(name: string)           // astype with a type name pandas does not understand
    | ConversionFailed(name: string)      // astype / to_datetime on a value it cannot convert
    | EndOfInput                          // input() after the last line of input

  datatype Result<T> = Ok(value: T) | Err(error: Error)

  /** The success or failure of an operation that works in place. */
  datatype Outcome = Pass | Fail(error: Error)

  /** A cell: pandas' missing marker (NaN / None / NaT) or a value. */
  datatype Cell = Missing | Int(i: int) | Num(x: real) | Str(s: string)

  type Row = seq<Cell>

  datatype Table = Table(cols: seq<string>, rows: seq<Row>)

  predicate IsMissing(c: Cell) {
    c.Missing?
  }

  predicate Present(c: Cell) {
    !c.Missing?
  }

  /** A row without a missing cell. */
  predicate Complete(r: Row) {
    Missing !in r
  }

  predicate Distinct<T(==)>(xs: seq<T>) {
    forall i, j :: 0 <= i < j < |xs| ==> xs[i] != xs[j]
  }

  /** Column names are unique and every row has one cell per column. */
  predicate WellFormed(t: Table) {
    Distinct(t.cols) && forall i :: 0 <= i < |t.rows| ==> |t.rows[i]| == |t.cols|
  }

  /** The cells of column j, top to bottom. */
  function Column(t: Table, j: nat): seq<Cell>
    requires WellFormed(t) && j < |t.cols|
  {
    seq(|t.rows|, i requires 0 <= i < |t.rows| => t.rows[i][j])
  }

  /** The position of a column name, if the table has it. */
  function IndexOf(names: seq<string>, name: string): (k: Option<nat>)
    ensures k.None? <==> name !in names
    ensures k.Some? ==> k.value < |names| && names[k.value] == name && name !in names[..k.value]
  {
    if |names| == 0 then None
    else if names[0] == name then Some(0)
    else match IndexOf(names[1..], name)
      case None => None
      case Some(k) =>
        assert names[..k + 1] == [names[0]] + names[1..][..k];
        Some(k + 1)
  }

  /** In a list of unique names, a name's position is the one holding it. */
  lemma IndexOfDistinct(names: seq<string>, j: nat)
    requires Distinct(names) && j < |names|
    ensures IndexOf(names, names[j]) == Some(j)
  {
  }

  /** Number of missing cells in one row or column. */
  function CountMissing(cells: seq<Cell>): nat {
    Count(cells, IsMissing)
  }
}
