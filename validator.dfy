/**
 * separate_valid_invalid_data's per-table validators: coerce the typed
 * columns (a value that does not convert becomes missing), collect the rows
 * with a missing field as invalid, and drop them from the batch, which is
 * what remains as valid.
 */
module Validator {
  import opened Cells
  import opened Frames
  import Registry

  /** The columns of a validated batch: hired_employees gains datetime_str as its last column. */
  function ValidatedColumns(table: string): (cols: seq<string>)
    requires Registry.IsKnownTable(table)
  {
    if table == "hired_employees" then Registry.HiredEmployeesColumns + ["datetime_str"]
    else Registry.Columns(table).value
  }

  /** Positions of the dropna subset in the validated columns. */
  function RequiredIndices(table: string): seq<nat>
    requires Registry.IsKnownTable(table)
  {
    if table == "hired_employees" then [0, 1, 2, 3, 4] else [0, 1]
  }

  /**
   * A raw row after the validator's column assignments, in the order the
   * validator makes them: the id columns coerced to integers, the datetime
   * to a timestamp, the text columns kept, and datetime_str holding the
   * datetime's text from before its coercion.
   */
  function CoerceRow(table: string, raw: Row): (r: Row)
    requires Registry.IsKnownTable(table) && |raw| == |Registry.Columns(table).value|
    ensures |r| == |ValidatedColumns(table)|
    ensures r[0] == Coerce(Numeric, raw[0]) && r[1] == raw[1]
    ensures table == "hired_employees" ==>
      && r[2] == Coerce(Timestamp, raw[2])
      && r[3] == Coerce(Numeric, raw[3])
      && r[4] == Coerce(Numeric, raw[4])
      && r[5] == raw[2]
  {
    if table == "hired_employees" then
      var withText := raw + [raw[2]];
      withText[0 := Coerce(Numeric, withText[0])]
              [3 := Coerce(Numeric, withText[3])]
              [4 := Coerce(Numeric, withText[4])]
              [2 := Coerce(Timestamp, withText[2])]
    else
      raw[0 := Coerce(Numeric, raw[0])]
  }

  ghost predicate RowsFit(table: string, raw: seq<Row>)
    requires Registry.IsKnownTable(table)
  {
    forall i :: 0 <= i < |raw| ==> |raw[i]| == |Registry.Columns(table).value|
  }

  function CoercedRows(table: string, raw: seq<Row>): (rows: seq<Row>)
    requires Registry.IsKnownTable(table) && RowsFit(table, raw)
    ensures |rows| == |raw|
  {
    seq(|raw|, i requires 0 <= i < |raw| => CoerceRow(table, raw[i]))
  }

  /** The row keeps a value in every required column once coerced. */
  predicate IsValidRow(table: string, raw: Row)
    requires Registry.IsKnownTable(table) && |raw| == |Registry.Columns(table).value|
  {
    CompleteOn(CoerceRow(table, raw), RequiredIndices(table))
  }

  /** What stays in the batch after dropna. */
  function ValidRows(table: string, raw: seq<Row>): seq<Row>
    requires Registry.IsKnownTable(table) && RowsFit(table, raw)
  {
    RowsCompleteOn(CoercedRows(table, raw), RequiredIndices(table))
  }

  /** What isnull().any(axis=1) selects, after the coercions. */
  function InvalidRows(table: string, raw: seq<Row>): seq<Row>
    requires Registry.IsKnownTable(table) && RowsFit(table, raw)
  {
    RowsWithMissing(CoercedRows(table, raw))
  }

  /** Reference split: the coerced rows whose raw row satisfies (or fails) the row rule, in batch order. */
  function Kept(table: string, raw: seq<Row>, valid: bool): seq<Row>
    requires Registry.IsKnownTable(table) && RowsFit(table, raw)
    decreases |raw|
  {
    if raw == [] then []
    else
      var last := raw[|raw| - 1];
      Kept(table, raw[..|raw| - 1], valid) + (if IsValidRow(table, last) == valid then [CoerceRow(table, last)] else [])
  }

  method ValidateDepartments(df: DataFrame) returns (invalid: Table)
    requires df.Valid() && df.columns == Registry.DepartmentsColumns
    modifies df
    ensures df.Valid() && df.columns == ValidatedColumns("departments")
    ensures df.rows == ValidRows("departments", old(df.rows))
    ensures invalid == Table(df.columns, InvalidRows("departments", old(df.rows)))
  {
    ghost var raw := df.rows;
    df.CoerceColumn("id", Numeric);
    assert df.rows == CoercedRows("departments", raw);
    invalid := df.RowsWithAnyMissing();
    df.DropMissing(["id", "department"]);
    assert IndicesOf(df.columns, ["id", "department"]) == RequiredIndices("departments");
  }

  method ValidateJobs(df: DataFrame) returns (invalid: Table)
    requires df.Valid() && df.columns == Registry.JobsColumns
    modifies df
    ensures df.Valid() && df.columns == ValidatedColumns("jobs")
    ensures df.rows == ValidRows("jobs", old(df.rows))
    ensures invalid == Table(df.columns, InvalidRows("jobs", old(df.rows)))
  {
    ghost var raw := df.rows;
    df.CoerceColumn("id", Numeric);
    assert df.rows == CoercedRows("jobs", raw);
    invalid := df.RowsWithAnyMissing();
    df.DropMissing(["id", "job"]);
    assert IndicesOf(df.columns, ["id", "job"]) == RequiredIndices("jobs");
  }

  method ValidateHiredEmployees(df: DataFrame) returns (invalid: Table)
    requires df.Valid() && df.columns == Registry.HiredEmployeesColumns
    modifies df
    ensures df.Valid() && df.columns == ValidatedColumns("hired_employees")
    ensures df.rows == ValidRows("hired_employees", old(df.rows))
    ensures invalid == Table(df.columns, InvalidRows("hired_employees", old(df.rows)))
  {
    CoerceHiredEmployeeColumns(df);
    RequiredPositions();
    invalid := df.RowsWithAnyMissing();
    df.DropMissing(["id", "name", "datetime", "department_id", "job_id"]);
  }

  /** The column assignments of validate_hired_employees: keep the datetime text, then coerce. */
  method CoerceHiredEmployeeColumns(df: DataFrame)
    requires df.Valid() && df.columns == Registry.HiredEmployeesColumns
    modifies df
    ensures df.Valid() && df.columns == ValidatedColumns("hired_employees")
    ensures df.rows == CoercedRows("hired_employees", old(df.rows))
  {
    ghost var raw := df.rows;
    ColumnPositions();
    df.AssignColumnCopy("datetime", "datetime_str");
    df.CoerceColumn("id", Numeric);
    df.CoerceColumn("department_id", Numeric);
    df.CoerceColumn("job_id", Numeric);
    df.CoerceColumn("datetime", Timestamp);
    HiredCoercionSteps(raw);
  }

  /** The five column assignments of validate_hired_employees, composed, are CoerceRow. */
  lemma HiredCoercionSteps(raw: seq<Row>)
    requires RowsFit("hired_employees", raw)
    ensures var copied := CopyInto(raw, 2, 5);
      CoercedColumn(CoercedColumn(CoercedColumn(CoercedColumn(copied, 0, Numeric), 3, Numeric), 4, Numeric), 2, Timestamp)
        == CoercedRows("hired_employees", raw)
  {
  }

  /** The dropna subset of validate_hired_employees, by position. */
  lemma RequiredPositions()
    ensures IndicesOf(ValidatedColumns("hired_employees"), ["id", "name", "datetime", "department_id", "job_id"])
      == RequiredIndices("hired_employees")
  {
    ColumnPositions();
  }

  lemma ColumnPositions()
    ensures var cols := ValidatedColumns("hired_employees");
      && IndexOf(cols, "id") == 0 && IndexOf(cols, "name") == 1 && IndexOf(cols, "datetime") == 2
      && IndexOf(cols, "department_id") == 3 && IndexOf(cols, "job_id") == 4 && IndexOf(cols, "datetime_str") == 5
      && IndexOf(Registry.HiredEmployeesColumns, "datetime") == 2
      && "datetime_str" !in Registry.HiredEmployeesColumns
  {
  }

  /** departments: valid iff the id converts to an integer and the department is present. */
  lemma DepartmentsRule(raw: Row)
    requires |raw| == 2 && IsRaw(raw[0]) && IsRaw(raw[1])
    ensures IsValidRow("departments", raw) <==> CoercesToInt(raw[0]) && raw[1].Text?
  {
  }

  /** jobs: valid iff the id converts to an integer and the job is present. */
  lemma JobsRule(raw: Row)
    requires |raw| == 2 && IsRaw(raw[0]) && IsRaw(raw[1])
    ensures IsValidRow("jobs", raw) <==> CoercesToInt(raw[0]) && raw[1].Text?
  {
  }

  /**
   * hired_employees: valid iff id, department_id and job_id convert to
   * integers, the datetime parses and the name is present.
   */
  lemma HiredEmployeesRule(raw: Row)
    requires |raw| == 5 && forall k :: 0 <= k < 5 ==> IsRaw(raw[k])
    ensures IsValidRow("hired_employees", raw) <==>
      CoercesToInt(raw[0]) && raw[1].Text? && CoercesToTime(raw[2]) && CoercesToInt(raw[3]) && CoercesToInt(raw[4])
    ensures CoerceRow("hired_employees", raw)[5] == raw[2]
  {
    var r := CoerceRow("hired_employees", raw);
    assert r[0] == Coerce(Numeric, raw[0]) && r[1] == raw[1] && r[2] == Coerce(Timestamp, raw[2]);
    assert r[3] == Coerce(Numeric, raw[3]) && r[4] == Coerce(Numeric, raw[4]);
  }

  /**
   * The invalid selection looks at every column while dropna looks only at
   * the required ones; they still agree, because the only extra column
   * (datetime_str) is missing only when datetime is.
   */
  lemma MissingIffInvalid(table: string, raw: Row)
    requires Registry.IsKnownTable(table) && |raw| == |Registry.Columns(table).value|
    ensures HasMissing(CoerceRow(table, raw)) <==> !IsValidRow(table, raw)
  {
    var r := CoerceRow(table, raw);
    if table == "hired_employees" {
      assert r[5] == raw[2] && r[2] == Coerce(Timestamp, raw[2]);
      if HasMissing(r) {
        var k :| 0 <= k < |r| && r[k].Missing?;
        if k == 5 {
          assert r[2].Missing? && RequiredIndices(table)[2] == 2;
        } else {
          assert RequiredIndices(table)[k] == k;
        }
      }
    } else {
      if HasMissing(r) {
        var k :| 0 <= k < |r| && r[k].Missing?;
        assert RequiredIndices(table)[k] == k;
      }
    }
  }

  /**
   * Every row of the batch lands in exactly one of valid and invalid, in
   * batch order, so the two counts add up to the batch size.
   */
  lemma ValidationSplitsBatch(table: string, raw: seq<Row>)
    requires Registry.IsKnownTable(table) && RowsFit(table, raw)
    ensures IsMerge(CoercedRows(table, raw), ValidRows(table, raw), InvalidRows(table, raw))
    ensures |ValidRows(table, raw)| + |InvalidRows(table, raw)| == |raw|
    ensures multiset(ValidRows(table, raw)) + multiset(InvalidRows(table, raw)) == multiset(CoercedRows(table, raw))
  {
    var rows := CoercedRows(table, raw);
    forall i | 0 <= i < |rows|
      ensures HasMissing(rows[i]) <==> !CompleteOn(rows[i], RequiredIndices(table))
    {
      MissingIffInvalid(table, raw[i]);
    }
    SplitIsMerge(rows, RequiredIndices(table));
    MergeCounts(rows, ValidRows(table, raw), InvalidRows(table, raw));
  }

  /**
   * The valid (invalid) rows are exactly the coerced rows whose raw row
   * passes (fails) the row rule, in batch order.
   */
  lemma {:induction false} ValidationMatchesRowRule(table: string, raw: seq<Row>)
    requires Registry.IsKnownTable(table) && RowsFit(table, raw)
    ensures ValidRows(table, raw) == Kept(table, raw, true)
    ensures InvalidRows(table, raw) == Kept(table, raw, false)
    decreases |raw|
  {
    if raw != [] {
      var init, last := raw[..|raw| - 1], raw[|raw| - 1];
      ValidationMatchesRowRule(table, init);
      var rows := CoercedRows(table, raw);
      assert rows[..|rows| - 1] == CoercedRows(table, init);
      assert rows[|rows| - 1] == CoerceRow(table, last);
      MissingIffInvalid(table, last);
    }
  }
}
