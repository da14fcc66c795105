/** A pandas DataFrame as a mutable object: the calls both tools make with
    `inplace=True`, column assignment `df[c] = ...`, and `copy()`. Each
    in-place call leaves the frame as the corresponding table function
    would return it, or unchanged when pandas raises before mutating. */
module Frames {
  import opened Tables
  import opened Cleaning

  class DataFrame {
    var table: Table

    ghost predicate Valid()
      reads this
    {
      WellFormed(table)
    }

    constructor (t: Table)
      requires WellFormed(t)
      ensures Valid() && table == t
    {
      table := t;
    }

    /** `df.copy()`: a new frame with equal contents. */
    method Copy() returns (c: DataFrame)
      requires Valid()
      ensures fresh(c) && c.Valid() && c.table == table
    {
      c := new DataFrame(table);
    }

    /** `df.drop(columns=names, inplace=True)`. */
    method DropColumns(names: seq<string>) returns (o: Outcome)
      requires Valid()
      modifies this
      ensures Valid()
      ensures RemoveColumns(old(table), names).Ok? ==> o == Pass && table == RemoveColumns(old(table), names).value
      ensures RemoveColumns(old(table), names).Err? ==> o == Fail(RemoveColumns(old(table), names).error) && table == old(table)
    {
      match RemoveColumns(table, names)
      case Ok(t) =>
        table := t;
        o := Pass;
      case Err(e) =>
        o := Fail(e);
    }

    /** `df.dropna(inplace=True)`. */
    method DropNa()
      requires Valid()
      modifies this
      ensures Valid() && table == FilterMissingValues(old(table))
    {
      table := FilterMissingValues(table);
    }

    /** `df.fillna(values, inplace=True)`, one value per column. */
    method FillNa(values: seq<Cell>)
      requires Valid() && |values| == |table.cols|
      modifies this
      ensures Valid() && table == Cleaning.FillNa(old(table), values)
    {
      table := Cleaning.FillNa(table, values);
    }

    /** `df[column] = values` for a column the frame has. */
    method SetColumn(column: string, values: seq<Cell>)
      requires Valid() && column in table.cols && |values| == |table.rows|
      modifies this
      ensures Valid() && table == WithColumn(old(table), IndexOf(old(table).cols, column).value, values)
    {
      table := WithColumn(table, IndexOf(table.cols, column).value, values);
    }

    /** `df[column] = df[column].astype(newType)`: looking the column up,
        reading the type name or converting a cell raises before the frame
        changes. */
    method AsType(column: string, newType: string, conv: Converter) returns (o: Outcome)
      requires Valid()
      modifies this
      ensures Valid()
      ensures ChangedTable(old(table), column, newType, conv).Ok? ==>
        o == Pass && table == ChangedTable(old(table), column, newType, conv).value
      ensures ChangedTable(old(table), column, newType, conv).Err? ==>
        o == Fail(ChangedTable(old(table), column, newType, conv).error) && table == old(table)
    {
      match IndexOf(table.cols, column)
      case None =>
        o := Fail(UnknownColumn(column));
      case Some(j) =>
        if !conv.understood(newType) {
          o := Fail(UnknownType(newType));
        } else {
          match ConvertAll(Column(table, j), newType, conv)
          case None =>
            o := Fail(ConversionFailed(column));
          case Some(values) =>
            SetColumn(column, values);
            o := Pass;
        }
    }
  }
}
