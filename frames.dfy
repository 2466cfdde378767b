/**
 * Decoded activity records and the table pandas builds from them: one row per
 * record, one column per field name seen in any record, a missing sample where
 * a record lacks the field.
 */
module Frames {
  import opened Wrappers
  import opened Columns

  /** One decoded field of a record message: its name and its value. */
  datatype Field = Field(name: string, value: Sample)

  /** A record message as the decoder yields it: its fields in order. */
  type Record = seq<Field>

  /** A record flattened into a dictionary from field name to value. */
  type Row = map<string, Sample>

  type ColumnMap = map<string, Column>

  /** The row labels: positions, or the timestamps (in seconds) once they become the index. */
  datatype Index = RangeIndex | TimeIndex(seconds: Column)

  /** A table snapshot: its columns by name, its row count and its index. */
  datatype Frame = Frame(columns: ColumnMap, rows: nat, index: Index)

  /** Every column holds one sample per row. */
  predicate Rectangular(cols: ColumnMap, rows: nat)
  {
    forall name :: name in cols ==> |cols[name]| == rows
  }

  predicate WellFormed(f: Frame)
  {
    Rectangular(f.columns, f.rows) && (f.index.TimeIndex? ==> |f.index.seconds| == f.rows)
  }

  /** `DataFrame.empty`: no rows, or no columns. */
  predicate IsEmpty(f: Frame)
  {
    f.rows == 0 || f.columns == map[]
  }

  /** The dictionary a record fills, field by field: a later field of the same name overwrites an earlier one. */
  function RowOf(r: Record): Row
  {
    if r == [] then map[] else RowOf(r[..|r| - 1])[r[|r| - 1].name := r[|r| - 1].value]
  }

  /** A field name is a key of the row exactly when some field carries it. */
  lemma {:induction false} RowOfKeys(r: Record, name: string)
    ensures name in RowOf(r) <==> exists k :: 0 <= k < |r| && r[k].name == name
  {
    if r != [] {
      var init := r[..|r| - 1];
      RowOfKeys(init, name);
      if name != r[|r| - 1].name && exists k :: 0 <= k < |r| && r[k].name == name {
        var k :| 0 <= k < |r| && r[k].name == name;
        assert init[k].name == name;
      }
    }
  }

  /** The value of a key is that of the last field carrying it. */
  lemma {:induction false} RowOfValue(r: Record, name: string, k: nat)
    requires k < |r| && r[k].name == name
    requires forall q :: k < q < |r| ==> r[q].name != name
    ensures name in RowOf(r) && RowOf(r)[name] == r[k].value
  {
    if k < |r| - 1 {
      var init := r[..|r| - 1];
      assert init[k] == r[k];
      RowOfValue(init, name, k);
    }
  }

  /** A field name is a key of the row exactly when some field carries it, and its value is the last such field's. */
  lemma RowOfLookup(r: Record, name: string)
    ensures name in RowOf(r) <==> exists k :: 0 <= k < |r| && r[k].name == name
    ensures forall k :: 0 <= k < |r| && r[k].name == name && (forall q :: k < q < |r| ==> r[q].name != name) ==>
      name in RowOf(r) && RowOf(r)[name] == r[k].value
  {
    RowOfKeys(r, name);
    forall k | 0 <= k < |r| && r[k].name == name && (forall q :: k < q < |r| ==> r[q].name != name)
      ensures name in RowOf(r) && RowOf(r)[name] == r[k].value
    {
      RowOfValue(r, name, k);
    }
  }

  /** The field names of all rows: the table's columns. */
  function FieldNames(rows: seq<Row>): set<string>
  {
    if rows == [] then {} else FieldNames(rows[..|rows| - 1]) + rows[|rows| - 1].Keys
  }

  lemma {:induction false} FieldNamesMember(rows: seq<Row>, name: string)
    ensures name in FieldNames(rows) <==> exists i :: 0 <= i < |rows| && name in rows[i]
  {
    if rows != [] {
      var init := rows[..|rows| - 1];
      FieldNamesMember(init, name);
      assert forall i :: 0 <= i < |init| ==> init[i] == rows[i];
      if name !in rows[|rows| - 1] && exists i :: 0 <= i < |rows| && name in rows[i] {
        var i :| 0 <= i < |rows| && name in rows[i];
        assert name in init[i];
      }
    }
  }

  /** One column of `DataFrame(rows)`: a row lacking the key contributes a missing sample. */
  function ColumnOf(rows: seq<Row>, name: string): (c: Column)
    ensures |c| == |rows|
    ensures forall i :: 0 <= i < |rows| ==> c[i] == if name in rows[i] then rows[i][name] else Missing
  {
    seq(|rows|, i requires 0 <= i < |rows| => if name in rows[i] then rows[i][name] else Missing)
  }

  /** `pandas.DataFrame(rows)` for a list of dictionaries. */
  function FrameOf(rows: seq<Row>): Frame
  {
    Frame(map name | name in FieldNames(rows) :: ColumnOf(rows, name), |rows|, RangeIndex)
  }

  /** The rows of the records, in the order the decoder emits them. */
  function RowsOf(records: seq<Record>): (rows: seq<Row>)
    ensures |rows| == |records|
    ensures forall i :: 0 <= i < |records| ==> rows[i] == RowOf(records[i])
  {
    seq(|records|, i requires 0 <= i < |records| => RowOf(records[i]))
  }

  /**
   * The table built from the records has one row per record, a column for
   * every field name any record carries and no other, and in row `i` the
   * value record `i` gives that field, or a missing sample when it has none.
   */
  lemma TableFromRecords(records: seq<Record>, name: string, i: nat)
    requires i < |records|
    ensures FrameOf(RowsOf(records)).rows == |records|
    ensures WellFormed(FrameOf(RowsOf(records)))
    ensures name in FrameOf(RowsOf(records)).columns <==>
      exists j, k :: 0 <= j < |records| && 0 <= k < |records[j]| && records[j][k].name == name
    ensures name in FrameOf(RowsOf(records)).columns && (forall k :: 0 <= k < |records[i]| ==> records[i][k].name != name) ==>
      FrameOf(RowsOf(records)).columns[name][i] == Missing
    ensures forall k ::
      0 <= k < |records[i]| && records[i][k].name == name && (forall q :: k < q < |records[i]| ==> records[i][q].name != name)
      ==> name in FrameOf(RowsOf(records)).columns && FrameOf(RowsOf(records)).columns[name][i] == records[i][k].value
  {
    TableColumns(records, name);
    var f := FrameOf(RowsOf(records));
    RowOfLookup(records[i], name);
    if name in f.columns {
      assert f.columns[name] == ColumnOf(RowsOf(records), name);
    }
  }

  lemma TableColumns(records: seq<Record>, name: string)
    ensures name in FrameOf(RowsOf(records)).columns <==>
      exists j, k :: 0 <= j < |records| && 0 <= k < |records[j]| && records[j][k].name == name
  {
    var rows := RowsOf(records);
    FieldNamesMember(rows, name);
    forall j | 0 <= j < |records| ensures name in rows[j] <==> exists k :: 0 <= k < |records[j]| && records[j][k].name == name {
      RowOfKeys(records[j], name);
    }
  }

  /** No records, or records without fields, give an empty table. */
  lemma NoFieldsEmpty(records: seq<Record>)
    requires forall j :: 0 <= j < |records| ==> records[j] == []
    ensures IsEmpty(FrameOf(RowsOf(records)))
  {
    var rows := RowsOf(records);
    forall name | name in FieldNames(rows) ensures false {
      FieldNamesMember(rows, name);
    }
  }
}
