/** `util::Table`: a table filled cell by cell with stream-like insertions
    and dumped with right-justified columns. A column remembers the widest
    string pushed into it; a table remembers its columns and the column the
    next insertion goes to. */
module Table {
  import opened Text

  datatype Column = Column(rows: seq<string>, width: nat)

  const EmptyColumn: Column := Column([], 0)

  /** The length of the longest string, 0 for none: the reference width. */
  function MaxLen(xs: seq<string>): nat {
    if |xs| == 0 then 0
    else var m := MaxLen(xs[..|xs| - 1]); if |xs[|xs| - 1]| > m then |xs[|xs| - 1]| else m
  }

  /** The column's width is the longest string it holds. */
  predicate ColumnOk(c: Column) {
    c.width == MaxLen(c.rows)
  }

  /** `Column::operator<<`. */
  function Push(c: Column, s: string): (r: Column)
    ensures r.rows == c.rows + [s]
    ensures ColumnOk(c) ==> ColumnOk(r)
  {
    var r := Column(c.rows + [s], if |s| > c.width then |s| else c.width);
    assert r.rows[..|r.rows| - 1] == c.rows;
    r
  }

  /** `Column::operator[]`: the row, or "" past the end of the column. */
  function At(c: Column, i: nat): string {
    if i < |c.rows| then c.rows[i] else ""
  }

  datatype Table = Table(columns: seq<Column>, cur: nat)

  const Empty: Table := Table([], 0)

  /** What the insertions maintain: the current column exists or is the next
      one to create, and every width is its column's longest string. */
  predicate Valid(t: Table) {
    t.cur <= |t.columns| && forall j :: 0 <= j < |t.columns| ==> ColumnOk(t.columns[j])
  }

  /** The rows of column `j`, none if the column does not exist yet. */
  function RowsOf(t: Table, j: nat): seq<string> {
    if j < |t.columns| then t.columns[j].rows else []
  }

  /** `Table::operator<<(StringRef)`: append to the current column, creating
      it if missing, and move to the next column. */
  function Insert(t: Table, s: string): (r: Table)
    requires t.cur <= |t.columns|
    ensures Valid(t) ==> Valid(r)
    ensures r.cur == t.cur + 1
    ensures |r.columns| == if t.cur < |t.columns| then |t.columns| else |t.columns| + 1
    ensures r.columns[t.cur].rows == RowsOf(t, t.cur) + [s]
    ensures forall j :: 0 <= j < |t.columns| && j != t.cur ==> r.columns[j] == t.columns[j]
  {
    var cols := if t.cur < |t.columns| then t.columns else t.columns + [EmptyColumn];
    Table(cols[t.cur := Push(cols[t.cur], s)], t.cur + 1)
  }

  /** `Table::operator<<(NotAvailable)`. */
  function InsertNA(t: Table): (r: Table)
    requires t.cur <= |t.columns|
    ensures r.cur == t.cur + 1 && t.cur < |r.columns|
    ensures r.columns[t.cur].rows == RowsOf(t, t.cur) + ["N/A"]
  {
    Insert(t, "N/A")
  }

  /** `Table::operator<<(EndOfLine)`: back to the first column. */
  function EndOfLine(t: Table): Table {
    t.(cur := 0)
  }

  function RowsCount(t: Table): nat {
    if |t.columns| == 0 then 0 else |t.columns[0].rows|
  }

  function ColsCount(t: Table): nat {
    |t.columns|
  }

  /** Insert the strings of `row` in order. */
  function InsertAll(t: Table, row: seq<string>): Table
    requires t.cur <= |t.columns|
    decreases |row|
  {
    if |row| == 0 then t else InsertAll(Insert(t, row[0]), row[1..])
  }

  /** `Tab << row[0] << ... << EOL`. */
  function AddRow(t: Table, row: seq<string>): Table
    requires t.cur <= |t.columns|
  {
    EndOfLine(InsertAll(t, row))
  }

  /** Inserting strings one after the other fills consecutive columns from
      the current one, one string each, and leaves the other columns alone. */
  lemma {:induction false} InsertAllFills(t: Table, row: seq<string>)
    requires Valid(t)
    ensures var r := InsertAll(t, row);
      && Valid(r)
      && r.cur == t.cur + |row|
      && |r.columns| == (if t.cur + |row| > |t.columns| then t.cur + |row| else |t.columns|)
      && (forall j :: t.cur <= j < t.cur + |row| ==> r.columns[j].rows == RowsOf(t, j) + [row[j - t.cur]])
      && (forall j :: 0 <= j < |t.columns| && !(t.cur <= j < t.cur + |row|) ==> r.columns[j] == t.columns[j])
    decreases |row|
  {
    if |row| > 0 {
      var t1 := Insert(t, row[0]);
      InsertAllFills(t1, row[1..]);
      var r := InsertAll(t, row);
      assert r == InsertAll(t1, row[1..]);
      forall j | t.cur <= j < t.cur + |row|
        ensures r.columns[j].rows == RowsOf(t, j) + [row[j - t.cur]]
      {
        if j > t.cur {
          assert RowsOf(t1, j) == RowsOf(t, j);
          assert row[1..][j - t1.cur] == row[j - t.cur];
        }
      }
    }
  }

  /** Every column holds `rows` strings, and there are `cols` columns. */
  predicate Rectangular(t: Table, rows: nat, cols: nat) {
    && Valid(t)
    && |t.columns| == cols
    && (cols == 0 ==> rows == 0)
    && forall j :: 0 <= j < cols ==> |t.columns[j].rows| == rows
  }

  /** Adding a full row at the start of a line appends one row: cell `j` of
      the new row is the `j`-th string, and the old rows stay as they were.
      On an empty table the row also decides the number of columns. */
  lemma AddRowAppends(t: Table, rows: nat, cols: nat, row: seq<string>)
    requires Rectangular(t, rows, cols) && t.cur == 0
    requires |row| > 0 && (|row| == cols || cols == 0)
    ensures var r := AddRow(t, row);
      && Rectangular(r, rows + 1, |row|)
      && r.cur == 0
      && RowsCount(r) == rows + 1 && ColsCount(r) == |row|
      && (forall j :: 0 <= j < |row| ==> r.columns[j].rows == RowsOf(t, j) + [row[j]])
  {
    InsertAllFills(t, row);
  }

  /** Add the rows in order, each ended by `EOL`. */
  function AddRows(t: Table, rows: seq<seq<string>>): Table
    requires t.cur <= |t.columns|
    decreases |rows|
  {
    if |rows| == 0 then t else AddRows(AddRow(t, rows[0]), rows[1..])
  }

  /** Column `j` of a list of rows. */
  function ColumnOf(rows: seq<seq<string>>, j: nat): (r: seq<string>)
    requires forall k :: 0 <= k < |rows| ==> j < |rows[k]|
    ensures |r| == |rows|
  {
    seq(|rows|, k requires 0 <= k < |rows| => rows[k][j])
  }

  lemma ColumnOfCons(rows: seq<seq<string>>, j: nat, w: nat)
    requires |rows| > 0 && j < w && forall k :: 0 <= k < |rows| ==> |rows[k]| == w
    ensures ColumnOf(rows, j) == [rows[0][j]] + ColumnOf(rows[1..], j)
  {
    assert forall k :: 1 <= k < |rows| ==> rows[1..][k - 1] == rows[k];
  }

  /** Adding rows of one width to a rectangular table of that width (or to
      an empty one) appends them below the existing rows, in order. */
  lemma {:induction false} AddRowsAppends(t: Table, rows: nat, cols: nat, added: seq<seq<string>>, w: nat)
    requires Rectangular(t, rows, cols) && t.cur == 0
    requires w > 0 && (w == cols || cols == 0)
    requires forall k :: 0 <= k < |added| ==> |added[k]| == w
    ensures var r := AddRows(t, added);
      && Rectangular(r, rows + |added|, if |added| == 0 then cols else w)
      && r.cur == 0
      && (forall j :: 0 <= j < |r.columns| ==> r.columns[j].rows == RowsOf(t, j) + ColumnOf(added, j))
    decreases |added|, 1
  {
    if |added| > 0 {
      AddRowsStep(t, rows, cols, added, w);
    } else {
      forall j | 0 <= j < |t.columns|
        ensures t.columns[j].rows == RowsOf(t, j) + ColumnOf(added, j)
      {
        assert ColumnOf(added, j) == [];
      }
    }
  }

  /** The inductive step of `AddRowsAppends`: the first row is added, then
      the others below it. */
  lemma AddRowsStep(t: Table, rows: nat, cols: nat, added: seq<seq<string>>, w: nat)
    requires Rectangular(t, rows, cols) && t.cur == 0
    requires w > 0 && (w == cols || cols == 0)
    requires |added| > 0 && forall k :: 0 <= k < |added| ==> |added[k]| == w
    ensures var r := AddRows(t, added);
      && Rectangular(r, rows + |added|, w)
      && r.cur == 0
      && (forall j :: 0 <= j < |r.columns| ==> r.columns[j].rows == RowsOf(t, j) + ColumnOf(added, j))
    decreases |added|, 0
  {
    var t1 := AddRow(t, added[0]);
    assert AddRows(t, added) == AddRows(t1, added[1..]);
    AddRowAppends(t, rows, cols, added[0]);
    AddRowsAppends(t1, rows + 1, w, added[1..], w);
    var r := AddRows(t1, added[1..]);
    assert |r.columns| == w && |t1.columns| == w;
    forall j | 0 <= j < w
      ensures r.columns[j].rows == RowsOf(t, j) + ColumnOf(added, j)
    {
      ColumnOfCons(added, j, w);
      assert RowsOf(t1, j) == RowsOf(t, j) + [added[0][j]];
    }
  }

  /** A table built from a header row and rows of the header's width has
      the header in row 0 and the rows below it, in order. */
  lemma HeaderThenRows(header: seq<string>, rows: seq<seq<string>>)
    requires |header| > 0
    requires forall k :: 0 <= k < |rows| ==> |rows[k]| == |header|
    ensures var r := AddRows(AddRow(Empty, header), rows);
      && Rectangular(r, 1 + |rows|, |header|)
      && forall j :: 0 <= j < |header| ==> r.columns[j].rows == [header[j]] + ColumnOf(rows, j)
  {
    var h := AddRow(Empty, header);
    AddRowAppends(Empty, 0, 0, header);
    AddRowsAppends(h, 1, |header|, rows, |header|);
    forall j | 0 <= j < |header|
      ensures RowsOf(h, j) == [header[j]]
    {
      assert RowsOf(Empty, j) == [];
    }
  }

  /** In a table built from a header row and rows of the header's width,
      the cell in row k + 1 of column j is cell j of row k. */
  lemma HeaderThenRowsCell(header: seq<string>, rows: seq<seq<string>>, k: nat, j: nat)
    requires |header| > 0
    requires forall k :: 0 <= k < |rows| ==> |rows[k]| == |header|
    requires k < |rows| && j < |header|
    ensures var r := AddRows(AddRow(Empty, header), rows);
      j < |r.columns| && k + 1 < |r.columns[j].rows| && r.columns[j].rows[k + 1] == rows[k][j]
  {
    HeaderThenRows(header, rows);
    var r := AddRows(AddRow(Empty, header), rows);
    assert r.columns[j].rows == [header[j]] + ColumnOf(rows, j);
  }

  function Spaces(n: nat): (r: string)
    ensures |r| == n && forall k :: 0 <= k < n ==> r[k] == ' '
  {
    seq(n, _ => ' ')
  }

  /** Cell `i` of a column, indented to the column's width. */
  function Pad(c: Column, i: nat): string
    requires ColumnOk(c)
  {
    MaxLenBound(c.rows, i);
    Spaces(c.width - |At(c, i)|) + At(c, i)
  }

  lemma {:induction false} MaxLenBound(xs: seq<string>, i: nat)
    ensures i < |xs| ==> |xs[i]| <= MaxLen(xs)
    decreases |xs|
  {
    if i < |xs| && i < |xs| - 1 {
      MaxLenBound(xs[..|xs| - 1], i);
    }
  }

  /** The loop over the columns of row `i` from column `j`: each padded cell,
      with one space after every cell but the last. */
  function RowFrom(t: Table, i: nat, j: nat): string
    requires Valid(t) && j <= |t.columns|
    decreases |t.columns| - j
  {
    if j == |t.columns| then ""
    else Pad(t.columns[j], i) + (if j != |t.columns| - 1 then " " else "") + RowFrom(t, i, j + 1)
  }

  /** `Table::Dump`: one line per row, each starting with "Prefix: " when a
      prefix is given. */
  function Dump(t: Table, prefix: string): (r: seq<string>)
    requires Valid(t)
  {
    seq(RowsCount(t), i requires 0 <= i < RowsCount(t) =>
      (if |prefix| != 0 then prefix + ": " else "") + RowFrom(t, i, 0) + "\n")
  }

  /** The cells of row `i`, padded: the reference the dump is compared with. */
  function Cells(t: Table, i: nat): (r: seq<string>)
    requires Valid(t)
    ensures |r| == |t.columns|
  {
    seq(|t.columns|, j requires 0 <= j < |t.columns| => Pad(t.columns[j], i))
  }

  /** The sum of the widths from column `j` on. */
  function WidthsFrom(t: Table, j: nat): nat
    requires j <= |t.columns|
    decreases |t.columns| - j
  {
    if j == |t.columns| then 0 else t.columns[j].width + WidthsFrom(t, j + 1)
  }

  /** A padded cell is exactly as wide as its column and ends with the cell:
      the columns are right-justified. */
  lemma PadRightJustified(c: Column, i: nat)
    requires ColumnOk(c)
    ensures |Pad(c, i)| == c.width
    ensures var p := Pad(c, i); var k := |p| - |At(c, i)|;
      0 <= k && p[k..] == At(c, i) && forall m :: 0 <= m < k ==> p[m] == ' '
  {
    MaxLenBound(c.rows, i);
  }

  lemma {:induction false} RowFromIsJoin(t: Table, i: nat, j: nat)
    requires Valid(t) && j < |t.columns|
    ensures RowFrom(t, i, j) == Join(" ", Cells(t, i)[j..])
    decreases |t.columns| - j
  {
    var cells := Cells(t, i);
    if j + 1 < |t.columns| {
      RowFromIsJoin(t, i, j + 1);
      assert cells[j..][1..] == cells[j + 1..];
    }
  }

  lemma {:induction false} RowFromLength(t: Table, i: nat, j: nat)
    requires Valid(t) && j <= |t.columns|
    ensures |RowFrom(t, i, j)| == WidthsFrom(t, j) + (if j < |t.columns| then |t.columns| - j - 1 else 0)
    decreases |t.columns| - j
  {
    if j < |t.columns| {
      RowFromLength(t, i, j + 1);
      PadRightJustified(t.columns[j], i);
    }
  }

  /** The dump writes exactly one line per row. Each line is the optional
      prefix, the padded cells separated by single spaces, and a newline, so
      every line of a table has the same length. */
  lemma DumpLayout(t: Table, prefix: string)
    requires Valid(t)
    ensures |Dump(t, prefix)| == RowsCount(t)
    ensures forall i :: 0 <= i < RowsCount(t) ==>
      Dump(t, prefix)[i] == (if |prefix| != 0 then prefix + ": " else "") + Join(" ", Cells(t, i)) + "\n"
    ensures forall i :: 0 <= i < RowsCount(t) ==>
      |Dump(t, prefix)[i]| == (if |prefix| != 0 then |prefix| + 2 else 0)
        + WidthsFrom(t, 0) + (if |t.columns| > 0 then |t.columns| - 1 else 0) + 1
  {
    forall i | 0 <= i < RowsCount(t)
      ensures Dump(t, prefix)[i] == (if |prefix| != 0 then prefix + ": " else "") + Join(" ", Cells(t, i)) + "\n"
      ensures |Dump(t, prefix)[i]| == (if |prefix| != 0 then |prefix| + 2 else 0)
        + WidthsFrom(t, 0) + (if |t.columns| > 0 then |t.columns| - 1 else 0) + 1
    {
      RowFromLength(t, i, 0);
      if |t.columns| > 0 {
        RowFromIsJoin(t, i, 0);
        assert Cells(t, i)[0..] == Cells(t, i);
      }
    }
  }

  /** Reading past the end of a shorter column gives the empty cell, which
      the dump pads to blanks. */
  lemma ShortColumnPadsBlank(c: Column, i: nat)
    requires ColumnOk(c) && i >= |c.rows|
    ensures Pad(c, i) == Spaces(c.width)
  {
  }
}
