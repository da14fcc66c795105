/** The web front-end's loader and its data quality report: the number of
    cells, of missing cells and of duplicate rows, and a score that takes
    50 points off for the share of missing cells and 50 for the share of
    duplicate rows. */
module Report {
  import opened Seqs
  import opened Tables
  import opened Text
  import opened Cleaning

  /** load_data of the web front-end: the upload goes to the reader of its
      extension; an unsupported name, or a reader that raises, gives None.
      The reader itself is a parameter. */
  function LoadUpload(name: string, read: Format -> Option<Table>): (r: Option<Table>)
    ensures !EndsWith(name, ".csv") && !EndsWith(name, ".xlsx") ==> r == None
    ensures EndsWith(name, ".csv") ==> r == read(Csv)
    ensures EndsWith(name, ".xlsx") ==> r == read(Xlsx)
  {
    match PathFormat(name)
    case None => None
    case Some(f) => read(f)
  }

  /** Only a .csv or .xlsx upload can produce a table. */
  lemma UploadNeedsTableExtension(name: string, read: Format -> Option<Table>)
    ensures LoadUpload(name, read).Some? ==> EndsWith(name, ".csv") || EndsWith(name, ".xlsx")
  {
  }

  // ------------------------------------------------------- missing cells

  /** `df.isnull().sum().sum()`: the missing cells of each of the first k
      columns, summed over those columns; at most one per row and column. */
  function MissingByColumns(t: Table, k: nat): (n: nat)
    requires WellFormed(t) && k <= |t.cols|
    ensures n <= |t.rows| * k
  {
    if k == 0 then 0
    else
      assert |t.rows| * (k - 1) + |t.rows| == |t.rows| * k;
      MissingByColumns(t, k - 1) + CountMissing(Column(t, k - 1))
  }

  /** The missing cells of the rows, row by row. */
  function MissingByRows(rows: seq<Row>): nat {
    if |rows| == 0 then 0 else MissingByRows(rows[..|rows| - 1]) + CountMissing(rows[|rows| - 1])
  }

  /** Adding one row to a table adds its missing cells to each column's count. */
  lemma {:induction false} MissingByColumnsLastRow(t: Table, k: nat)
    requires WellFormed(t) && |t.rows| > 0 && k <= |t.cols|
    ensures var front := Table(t.cols, t.rows[..|t.rows| - 1]);
      MissingByColumns(t, k) == MissingByColumns(front, k) + CountMissing(t.rows[|t.rows| - 1][..k])
  {
    var front := Table(t.cols, t.rows[..|t.rows| - 1]);
    var last := t.rows[|t.rows| - 1];
    if k == 0 {
      assert last[..0] == [];
    } else {
      MissingByColumnsLastRow(t, k - 1);
      var x := last[k - 1];
      var cf := Column(front, k - 1);
      var m := if IsMissing(x) then 1 else 0;
      ColumnLastRow(t, k - 1);
      CountSnoc(cf, x, IsMissing);
      assert CountMissing(Column(t, k - 1)) == CountMissing(cf) + m;
      PrefixSnoc(last, k);
      CountSnoc(last[..k - 1], x, IsMissing);
      assert CountMissing(last[..k]) == CountMissing(last[..k - 1]) + m;
      assert MissingByColumns(t, k) == MissingByColumns(t, k - 1) + CountMissing(Column(t, k - 1));
      assert MissingByColumns(front, k) == MissingByColumns(front, k - 1) + CountMissing(cf);
    }
  }

  /** A column of a table is the column without its last row, then that row's cell. */
  lemma ColumnLastRow(t: Table, j: nat)
    requires WellFormed(t) && |t.rows| > 0 && j < |t.cols|
    ensures Column(t, j) == Column(Table(t.cols, t.rows[..|t.rows| - 1]), j) + [t.rows[|t.rows| - 1][j]]
  {
  }

  /** Counting the missing cells column by column, as the report does, gives
      the number of missing cells in the table. */
  lemma {:induction false} MissingCountsAgree(t: Table)
    requires WellFormed(t)
    ensures MissingByColumns(t, |t.cols|) == MissingByRows(t.rows)
    decreases |t.rows|
  {
    if |t.rows| == 0 {
      MissingOfNoRows(t, |t.cols|);
    } else {
      var front := Table(t.cols, t.rows[..|t.rows| - 1]);
      MissingByColumnsLastRow(t, |t.cols|);
      MissingCountsAgree(front);
      assert t.rows[|t.rows| - 1][..|t.cols|] == t.rows[|t.rows| - 1];
    }
  }

  /** A table without rows has no missing cell in any column. */
  lemma {:induction false} MissingOfNoRows(t: Table, k: nat)
    requires WellFormed(t) && |t.rows| == 0 && k <= |t.cols|
    ensures MissingByColumns(t, k) == 0
  {
    if k > 0 {
      MissingOfNoRows(t, k - 1);
    }
  }

  /** A table has at most as many missing cells as cells. */
  lemma {:induction false} MissingBounded(rows: seq<Row>, width: nat)
    requires forall i :: 0 <= i < |rows| ==> |rows[i]| == width
    ensures MissingByRows(rows) <= |rows| * width
  {
    if |rows| > 0 {
      var n := |rows| - 1;
      MissingBounded(rows[..n], width);
      assert CountMissing(rows[n]) <= width;
      assert n * width + width == |rows| * width;
    }
  }

  /** The row-by-row count adds up over concatenated rows. */
  lemma {:induction false} MissingByRowsAppend(a: seq<Row>, b: seq<Row>)
    ensures MissingByRows(a + b) == MissingByRows(a) + MissingByRows(b)
  {
    if |b| == 0 {
      assert a + b == a;
    } else {
      assert (a + b)[..|a + b| - 1] == a + b[..|b| - 1];
      MissingByRowsAppend(a, b[..|b| - 1]);
    }
  }

  /** The number of missing cells does not depend on the order of the rows. */
  lemma {:induction false} MissingRowOrder(a: seq<Row>, b: seq<Row>)
    requires multiset(a) == multiset(b)
    ensures MissingByRows(a) == MissingByRows(b)
    decreases |a|
  {
    if |a| > 0 {
      var x := a[|a| - 1];
      var a' := a[..|a| - 1];
      assert a == a' + [x];
      assert multiset(a') == multiset(a) - multiset{x};
      assert x in multiset(b);
      var j :| 0 <= j < |b| && b[j] == x;
      RemoveAt(b, j);
      MissingRowOrder(a', b[..j] + b[j + 1..]);
      MissingByRowsRemoveAt(b, j);
    } else {
      assert b == [];
    }
  }

  /** Taking out the row at j takes its missing cells out of the count. */
  lemma MissingByRowsRemoveAt(b: seq<Row>, j: nat)
    requires j < |b|
    ensures MissingByRows(b) == MissingByRows(b[..j] + b[j + 1..]) + CountMissing(b[j])
  {
    var x, p, q := b[j], b[..j], b[j + 1..];
    SplitAt(b, j);
    MissingByRowsAppend(p + [x], q);
    MissingByRowsAppend(p, [x]);
    MissingByRowsAppend(p, q);
    MissingOfOneRow(x);
  }

  /** One row holds its own missing cells. */
  lemma MissingOfOneRow(x: Row)
    ensures MissingByRows([x]) == CountMissing(x)
  {
    assert [x][..0] == [];
  }

  // ------------------------------------------------------- duplicate rows

  /** A cell as `duplicated()` compares it: by value, so that an integer
      equals the float of the same number. */
  function Key(c: Cell): Cell {
    if c.Int? then Num(c.i as real) else c
  }

  /** A row as `duplicated()` compares it. */
  function RowKey(r: Row): Row {
    seq(|r|, k requires 0 <= k < |r| => Key(r[k]))
  }

  function Keys(rows: seq<Row>): seq<Row> {
    seq(|rows|, i requires 0 <= i < |rows| => RowKey(rows[i]))
  }

  /** The elements equal to some earlier element. */
  function Repeats<T(==)>(xs: seq<T>): (n: nat)
    ensures n <= |xs|
  {
    if |xs| == 0 then 0
    else Repeats(xs[..|xs| - 1]) + (if xs[|xs| - 1] in xs[..|xs| - 1] then 1 else 0)
  }

  /** `df.duplicated().sum()`: the rows equal, cell by cell and by value, to
      some earlier row. */
  function DuplicateRows(rows: seq<Row>): (n: nat)
    ensures n <= |rows|
  {
    Repeats(Keys(rows))
  }

  /** The distinct rows, compared as `duplicated()` compares them. */
  function DistinctRows(rows: seq<Row>): set<Row> {
    set r | r in Keys(rows)
  }

  /** Every element is a first occurrence or a repeat. */
  lemma {:induction false} RepeatsAndDistinct<T>(xs: seq<T>)
    ensures Repeats(xs) + |set x | x in xs| == |xs|
  {
    if |xs| == 0 {
      assert (set x | x in xs) == {};
    } else {
      var front := xs[..|xs| - 1];
      var last := xs[|xs| - 1];
      RepeatsAndDistinct(front);
      assert xs == front + [last];
      assert (set x | x in xs) == (set x | x in front) + {last};
      if last in front {
        assert (set x | x in xs) == (set x | x in front);
      } else {
        assert last !in (set x | x in front);
      }
    }
  }

  /** Two sequences with the same pattern of equal elements have the same
      number of repeats. */
  lemma {:induction false} RepeatsSame<T, U>(xs: seq<T>, ys: seq<U>)
    requires |xs| == |ys|
    requires forall i, j :: 0 <= i < |xs| && 0 <= j < |xs| ==> (xs[i] == xs[j] <==> ys[i] == ys[j])
    ensures Repeats(xs) == Repeats(ys)
  {
    if |xs| > 0 {
      var n := |xs| - 1;
      var xf, yf := xs[..n], ys[..n];
      assert forall i :: 0 <= i < n ==> xf[i] == xs[i] && yf[i] == ys[i];
      RepeatsSame(xf, yf);
      if xs[n] in xf {
        var j :| 0 <= j < n && xf[j] == xs[n];
        assert ys[n] == yf[j];
      }
      if ys[n] in yf {
        var j :| 0 <= j < n && yf[j] == ys[n];
        assert xs[n] == xf[j];
      }
    }
  }

  /** Every row is a first occurrence or a duplicate: the duplicates are the
      rows less the distinct ones. */
  lemma DuplicatesAndDistinct(rows: seq<Row>)
    ensures DuplicateRows(rows) + |DistinctRows(rows)| == |rows|
  {
    RepeatsAndDistinct(Keys(rows));
  }

  /** A non-empty table has fewer duplicate rows than rows: the first is never one. */
  lemma DuplicatesBelowRows(rows: seq<Row>)
    requires |rows| > 0
    ensures DuplicateRows(rows) < |rows|
  {
    DuplicatesAndDistinct(rows);
    assert Keys(rows)[0] in DistinctRows(rows);
  }

  /** The number of duplicate rows does not depend on the order of the rows. */
  lemma DuplicateRowOrder(a: seq<Row>, b: seq<Row>)
    requires multiset(a) == multiset(b)
    ensures DuplicateRows(a) == DuplicateRows(b)
  {
    DuplicatesAndDistinct(a);
    DuplicatesAndDistinct(b);
    assert |a| == |multiset(a)| == |b|;
    forall r | r in Keys(a) ensures r in Keys(b) {
      var i :| 0 <= i < |a| && Keys(a)[i] == r;
      assert a[i] in multiset(b);
      var j :| 0 <= j < |b| && b[j] == a[i];
      assert Keys(b)[j] == r;
    }
    forall r | r in Keys(b) ensures r in Keys(a) {
      var j :| 0 <= j < |b| && Keys(b)[j] == r;
      assert b[j] in multiset(a);
      var i :| 0 <= i < |a| && a[i] == b[j];
      assert Keys(a)[i] == r;
    }
    assert DistinctRows(a) == DistinctRows(b);
  }

  /** An integer cell and a float cell of the same value make a duplicate. */
  lemma DuplicateOfIntAndFloat()
    ensures DuplicateRows([[Int(1)], [Num(1.0)]]) == 1
  {
    var rows: seq<Row> := [[Int(1)], [Num(1.0)]];
    assert RowKey(rows[0]) == [Num(1.0)] && RowKey(rows[1]) == [Num(1.0)];
    assert Keys(rows) == [[Num(1.0)], [Num(1.0)]];
    assert Keys(rows)[..1] == [[Num(1.0)]];
    assert Keys(rows)[..1][..0] == [];
  }

  // -------------------------------------------------------------- score

  datatype QualityReport = QualityReport(
    totalRows: nat, totalColumns: nat, totalCells: nat,
    missingValues: nat, duplicateRows: nat, score: real)

  /** `max(0, 100 - missing / cells * 50 - duplicates / rows * 50)`: a score
      out of 100 that only a table without missing cells and duplicates reaches. */
  function Score(missing: nat, cells: nat, duplicates: nat, rows: nat): (s: real)
    requires cells > 0 && rows > 0
    ensures 0.0 <= s <= 100.0
    ensures s == 100.0 <==> missing == 0 && duplicates == 0
  {
    var m := (missing as real) / (cells as real);
    var d := (duplicates as real) / (rows as real);
    Ratio(missing, cells);
    Ratio(duplicates, rows);
    var raw := 100.0 - m * 50.0 - d * 50.0;
    if raw > 0.0 then raw else 0.0
  }

  /** With no more missing cells than cells and fewer duplicates than rows the
      clamp at 0 never acts; the score is 100 exactly for a table without
      missing cells or duplicates. */
  lemma ScoreRange(missing: nat, cells: nat, duplicates: nat, rows: nat)
    requires cells > 0 && rows > 0 && missing <= cells && duplicates < rows
    ensures var s := Score(missing, cells, duplicates, rows);
      && s == 100.0 - (missing as real) / (cells as real) * 50.0 - (duplicates as real) / (rows as real) * 50.0
      && 0.0 < s <= 100.0
      && (s == 100.0 <==> missing == 0 && duplicates == 0)
  {
    Ratio(missing, cells);
    Ratio(duplicates, rows);
  }

  /** The share a of b: not negative, zero exactly for a == 0, at most 1
      when a <= b and below 1 when a < b. */
  lemma Ratio(a: nat, b: nat)
    requires b > 0
    ensures var q := (a as real) / (b as real);
      && 0.0 <= q && (q == 0.0 <==> a == 0)
      && (a <= b ==> q <= 1.0) && (a < b ==> q < 1.0)
  {
    var q := (a as real) / (b as real);
    assert q * (b as real) == a as real;
  }

  /** data_report: the counts and the score of a table with cells. */
  function DataReport(t: Table): (r: QualityReport)
    requires WellFormed(t) && |t.rows| > 0 && |t.cols| > 0
    ensures r.totalRows == |t.rows| && r.totalColumns == |t.cols|
    ensures r.totalCells == r.totalRows * r.totalColumns
    ensures r.missingValues == MissingByRows(t.rows) && r.missingValues <= r.totalCells
    ensures r.duplicateRows + |DistinctRows(t.rows)| == r.totalRows && r.duplicateRows < r.totalRows
    ensures 0.0 < r.score <= 100.0
    ensures r.score == 100.0 - (r.missingValues as real) / (r.totalCells as real) * 50.0
                             - (r.duplicateRows as real) / (r.totalRows as real) * 50.0
    ensures r.score == 100.0 <==> r.missingValues == 0 && r.duplicateRows == 0
  {
    var cells := |t.rows| * |t.cols|;
    var missing := MissingByColumns(t, |t.cols|);
    var duplicates := DuplicateRows(t.rows);
    MissingCountsAgree(t);
    MissingBounded(t.rows, |t.cols|);
    DuplicatesAndDistinct(t.rows);
    DuplicatesBelowRows(t.rows);
    ScoreRange(missing, cells, duplicates, |t.rows|);
    QualityReport(|t.rows|, |t.cols|, cells, missing, duplicates, Score(missing, cells, duplicates, |t.rows|))
  }

  /** The report does not depend on the order of the rows. */
  lemma ReportRowOrder(t: Table, u: Table)
    requires WellFormed(t) && WellFormed(u) && |t.rows| > 0 && |t.cols| > 0
    requires u.cols == t.cols && multiset(u.rows) == multiset(t.rows)
    ensures DataReport(u) == DataReport(t)
  {
    assert |u.rows| == |multiset(u.rows)| == |t.rows|;
    MissingRowOrder(t.rows, u.rows);
    DuplicateRowOrder(t.rows, u.rows);
  }

  /** Rows with the same missing counts, one for one, have the same total. */
  lemma {:induction false} MissingByRowsPointwise(a: seq<Row>, b: seq<Row>)
    requires |a| == |b| && forall i :: 0 <= i < |a| ==> CountMissing(a[i]) == CountMissing(b[i])
    ensures MissingByRows(a) == MissingByRows(b)
  {
    if |a| > 0 {
      var n := |a| - 1;
      assert forall i :: 0 <= i < n ==> a[..n][i] == a[i] && b[..n][i] == b[i];
      MissingByRowsPointwise(a[..n], b[..n]);
    }
  }

  /** The report does not depend on the order of the columns: u holds the
      columns of t in the order perm, with every row rearranged the same way. */
  lemma ReportColumnOrder(t: Table, u: Table, perm: seq<nat>)
    requires WellFormed(t) && |t.rows| > 0 && |t.cols| > 0
    requires IsPermutation(perm, |t.cols|) && u.cols == Pick(t.cols, perm)
    requires |u.rows| == |t.rows| && forall i :: 0 <= i < |t.rows| ==> u.rows[i] == Pick(t.rows[i], perm)
    ensures WellFormed(u) && DataReport(u) == DataReport(t)
  {
    assert Distinct(u.cols) by {
      forall p, q | 0 <= p < q < |u.cols| ensures u.cols[p] != u.cols[q] {
        assert u.cols[p] == t.cols[perm[p]] && u.cols[q] == t.cols[perm[q]];
      }
    }
    forall i | 0 <= i < |t.rows| ensures CountMissing(u.rows[i]) == CountMissing(t.rows[i]) {
      PickPermutation(t.rows[i], perm);
      CountOrder(u.rows[i], t.rows[i], IsMissing);
    }
    MissingByRowsPointwise(u.rows, t.rows);
    forall i, j | 0 <= i < |t.rows| && 0 <= j < |t.rows|
      ensures Keys(u.rows)[i] == Keys(u.rows)[j] <==> Keys(t.rows)[i] == Keys(t.rows)[j]
    {
      KeyPick(t.rows[i], perm);
      KeyPick(t.rows[j], perm);
      PickInjective(RowKey(t.rows[i]), RowKey(t.rows[j]), perm);
    }
    RepeatsSame(Keys(u.rows), Keys(t.rows));
  }

  /** Comparing rearranged rows is comparing the rearrangements of their keys. */
  lemma KeyPick(r: Row, perm: seq<nat>)
    requires IsPermutation(perm, |r|)
    ensures RowKey(Pick(r, perm)) == Pick(RowKey(r), perm)
  {
  }

  /** The duplicate step of ReportExample: only the third row repeats one before it. */
  lemma ExampleDuplicates(rows: seq<Row>)
    requires rows == [[Int(1), Num(25.0)], [Int(2), Missing], [Int(1), Num(25.0)]]
    ensures DuplicateRows(rows) == 1
  {
    var a: Row, b: Row := [Num(1.0), Num(25.0)], [Num(2.0), Missing];
    assert RowKey(rows[0]) == a && RowKey(rows[1]) == b && RowKey(rows[2]) == a;
    var ks := Keys(rows);
    assert ks == [a, b, a];
    assert ks[..2] == [a, b] && ks[..2][..1] == [a] && ks[..2][..1][..0] == [];
    assert a != b by {
      assert a[0] != b[0];
    }
    assert Repeats([a]) == 0;
    assert Repeats([a, b]) == 0;
  }

  /** Two columns, three rows, one missing cell, the third row repeating the
      first: 6 cells, 1 missing, 1 duplicate, score 100 - 50/6 - 50/3 = 75. */
  lemma ReportExample()
    ensures var t := Table(["id", "age"], [[Int(1), Num(25.0)], [Int(2), Missing], [Int(1), Num(25.0)]]);
      WellFormed(t) &&
      DataReport(t) == QualityReport(3, 2, 6, 1, 1, 75.0)
  {
    var t := Table(["id", "age"], [[Int(1), Num(25.0)], [Int(2), Missing], [Int(1), Num(25.0)]]);
    var rows := t.rows;
    assert rows[..|rows| - 1] == rows[..2];
    assert rows[..2][..1] == rows[..1];
    assert rows[..1][..0] == [];
    ExampleDuplicates(rows);
    assert CountMissing(rows[0]) == 0 by {
      assert rows[0][..1] == [Int(1)];
      assert rows[0][..1][..0] == [];
    }
    assert CountMissing(rows[1]) == 1 by {
      assert rows[1][..1] == [Int(2)];
      assert rows[1][..1][..0] == [];
    }
    assert CountMissing(rows[2]) == 0 by {
      assert rows[2][..1] == [Int(1)];
      assert rows[2][..1][..0] == [];
    }
    assert MissingByRows(rows[..1]) == 0;
    assert MissingByRows(rows[..2]) == 1;
    assert MissingByRows(rows) == 1;
  }
}
