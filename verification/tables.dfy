/** The request table: the decoded host rows, one string cell per declared
    column, in the order the host sent them. */
module Tables {
  import opened Wrappers
  import opened Data
  import opened Seqs

  datatype Table = Table(header: seq<string>, rows: seq<seq<string>>)

  /** `t` is what the row decoder produces for the column names `headers`:
      exactly those columns, and every row has one cell per column. */
  predicate IsRequestTable(t: Table, headers: seq<string>) {
    && t.header == headers
    && forall i :: 0 <= i < |t.rows| ==> |t.rows[i]| == |headers|
  }

  /** The position of the first column called `name`. */
  function ColumnIndex(header: seq<string>, name: string): (k: nat)
    requires name in header
    ensures k < |header| && header[k] == name
    ensures name !in header[..k]
  {
    if header[0] == name then 0
    else
      assert header == [header[0]] + header[1..];
      1 + ColumnIndex(header[1..], name)
  }

  /** The cells of `row` whose column is not called `name`, in order. */
  function KeepCells<T>(header: seq<string>, row: seq<T>, name: string): (r: seq<T>)
    requires |row| == |header|
    ensures |r| == |header| - Count(header, name)
    decreases |header|
  {
    if |header| == 0 then []
    else
      assert header == [header[0]] + header[1..];
      (if header[0] == name then [] else [row[0]]) + KeepCells(header[1..], row[1..], name)
  }

  /** Keeping the cells outside the column `name` keeps, of the header, exactly
      the other column names. */
  lemma {:induction false} KeepCellsHeader(header: seq<string>, name: string)
    ensures forall c :: c in KeepCells(header, header, name) <==> c in header && c != name
    decreases |header|
  {
    if |header| > 0 {
      KeepCellsHeader(header[1..], name);
      assert header == [header[0]] + header[1..];
    }
  }

  /** When `name` labels exactly one column, at position `k`, dropping it
      removes exactly the `k`-th cell. */
  lemma {:induction false} KeepCellsAt<T>(header: seq<string>, row: seq<T>, name: string, k: nat)
    requires |row| == |header| && k < |header| && header[k] == name
    requires forall j :: 0 <= j < |header| && j != k ==> header[j] != name
    ensures KeepCells(header, row, name) == row[..k] + row[k + 1..]
    decreases |header|
  {
    if k == 0 {
      KeepCellsNone(header[1..], row[1..], name);
    } else {
      KeepCellsAt(header[1..], row[1..], name, k - 1);
      assert row[1..][..k - 1] == row[1..k];
      assert row[1..][k..] == row[k + 1..];
      assert [row[0]] + row[1..k] == row[..k];
    }
  }

  /** A row without the column `name` is kept whole. */
  lemma {:induction false} KeepCellsNone<T>(header: seq<string>, row: seq<T>, name: string)
    requires |row| == |header|
    requires forall j :: 0 <= j < |header| ==> header[j] != name
    ensures KeepCells(header, row, name) == row
    decreases |header|
  {
    if |header| > 0 {
      KeepCellsNone(header[1..], row[1..], name);
      assert [row[0]] + row[1..] == row;
    }
  }

  /** `df.drop([name], axis=1)`: every column labelled `name` removed, rows
      kept in order. */
  function DropColumn(t: Table, name: string): (r: Table)
    requires IsRequestTable(t, t.header)
    ensures name !in r.header
    ensures IsRequestTable(r, r.header)
    ensures |r.rows| == |t.rows|
  {
    KeepCellsHeader(t.header, name);
    Table(KeepCells(t.header, t.header, name),
          seq(|t.rows|, i requires 0 <= i < |t.rows| => KeepCells(t.header, t.rows[i], name)))
  }

  /** `df.loc[0, name]`: the cell of the first row in column `name`; the
      lookup raises when the table has no rows. */
  function FirstRowCell(t: Table, name: string): (r: Result<string, Error>)
    requires IsRequestTable(t, t.header) && name in t.header
    ensures r.Failure? <==> |t.rows| == 0
    ensures r.Failure? ==> r.error == NoRequestRows
    ensures r.Success? ==> exists k :: 0 <= k < |t.header| && t.header[k] == name && r.value == t.rows[0][k]
  {
    if |t.rows| == 0 then Failure(NoRequestRows)
    else Success(t.rows[0][ColumnIndex(t.header, name)])
  }
}
