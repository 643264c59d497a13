/**
 * create_data_object: turn one row of a validated batch into the model
 * object the session stores, by building the keyword arguments of the
 * model's constructor from the row's labelled fields.
 */
module Mapper {
  import opened Wrappers
  import opened Cells
  import opened Frames
  import opened Models
  import Registry
  import Validator

  /** One row of a frame, as iterrows() yields it: the fields labelled by the frame's columns. */
  datatype Series = Series(labels: seq<string>, values: seq<Cell>)

  /** row[key]: the field under that label, or None where pandas raises KeyError. */
  function Get(row: Series, key: string): (r: Option<Cell>)
    ensures r.Some? <==> key in row.labels && IndexOf(row.labels, key) < |row.values|
    ensures r.Some? ==> r.value == row.values[IndexOf(row.labels, key)]
    ensures |row.labels| == |row.values| ==> (r.Some? <==> key in row.labels)
  {
    if key in row.labels && IndexOf(row.labels, key) < |row.values| then
      Some(row.values[IndexOf(row.labels, key)])
    else None
  }

  /** Keyword arguments of a constructor call: the dict unpacked with **. */
  type Kwargs = map<string, Cell>

  datatype Model = DepartmentModel | JobModel | HiredEmployeeModel

  /** The mapped attributes of each model: the only keywords its constructor accepts. */
  function Attributes(m: Model): set<string>
  {
    match m
    case DepartmentModel => {"id", "department"}
    case JobModel => {"id", "job"}
    case HiredEmployeeModel => {"id", "name", "datetime", "datetime_str", "department_id", "job_id"}
  }

  function IntArg(kw: Kwargs, key: string): Option<int>
  {
    if key !in kw then None
    else match kw[key]
      case IntVal(n) => Some(n)
      case _ => None
  }

  function TextArg(kw: Kwargs, key: string): Option<string>
  {
    if key !in kw then None
    else match kw[key]
      case Text(s) => Some(s)
      case _ => None
  }

  function TimeArg(kw: Kwargs, key: string): Option<Dates.DateTime>
  {
    if key !in kw then None
    else match kw[key]
      case TimeVal(t) => Some(t)
      case _ => None
  }

  /**
   * Model(**kw): the declarative constructor refuses a keyword that is not a
   * mapped attribute (TypeError); the model also needs a value of its
   * column's type for every attribute.
   */
  function Construct(m: Model, kw: Kwargs): (r: Option<Entity>)
    ensures !(kw.Keys <= Attributes(m)) ==> r == None
    ensures r.Some? ==> m == (match r.value
                              case DepartmentRow(_) => DepartmentModel
                              case JobRow(_) => JobModel
                              case HiredEmployeeRow(_) => HiredEmployeeModel)
  {
    if !(kw.Keys <= Attributes(m)) then None
    else
      match m
      case DepartmentModel =>
        (match (IntArg(kw, "id"), TextArg(kw, "department"))
         case (Some(id), Some(d)) => Some(DepartmentRow(Department(id, d)))
         case _ => None)
      case JobModel =>
        (match (IntArg(kw, "id"), TextArg(kw, "job"))
         case (Some(id), Some(j)) => Some(JobRow(Job(id, j)))
         case _ => None)
      case HiredEmployeeModel =>
        (match (IntArg(kw, "id"), TextArg(kw, "name"), TimeArg(kw, "datetime"), TextArg(kw, "datetime_str"),
                IntArg(kw, "department_id"), IntArg(kw, "job_id"))
         case (Some(id), Some(n), Some(t), Some(s), Some(d), Some(j)) =>
           Some(HiredEmployeeRow(HiredEmployee(id, n, t, s, d, j)))
         case _ => None)
  }

  /**
   * create_data_object with the keyword under which the hire's id is passed
   * as a parameter. A row from the invalid set would go to a *Failed model
   * that the module never defines; the NameError is caught and gives None,
   * as do a missing key and an unknown table.
   */
  function CreateDataObjectKeyed(idKey: string, table: string, row: Series, isValid: bool): (r: Option<Entity>)
    ensures !isValid ==> r == None
    ensures !Registry.IsKnownTable(table) ==> r == None
    ensures r.Some? ==> TableName(TableOf(r.value)) == table
  {
    if table == "departments" then
      match (Get(row, "id"), Get(row, "department"))
      case (Some(id), Some(d)) => if isValid then Construct(DepartmentModel, map["id" := id, "department" := d]) else None
      case _ => None
    else if table == "jobs" then
      match (Get(row, "id"), Get(row, "job"))
      case (Some(id), Some(j)) => if isValid then Construct(JobModel, map["id" := id, "job" := j]) else None
      case _ => None
    else if table == "hired_employees" then
      var datetimeStr := if "datetime_str" in row.labels then Get(row, "datetime_str") else Some(Text(""));
      match (Get(row, "id"), Get(row, "name"), Get(row, "datetime"), datetimeStr,
             Get(row, "department_id"), Get(row, "job_id"))
      case (Some(id), Some(n), Some(t), Some(s), Some(d), Some(j)) =>
        if isValid then
          Construct(HiredEmployeeModel, map[idKey := id, "name" := n, "datetime" := t, "datetime_str" := s,
                                           "department_id" := d, "job_id" := j])
        else None
      case _ => None
    else None
  }

  /** create_data_object as written: the hire's id goes in under the keyword employee_id. */
  function CreateDataObjectAsWritten(table: string, row: Series, isValid: bool): (r: Option<Entity>)
    ensures table == "hired_employees" ==> r == None
  {
    var r := CreateDataObjectKeyed("employee_id", table, row, isValid);
    r
  }

  /** create_data_object with the key the HiredEmployee model maps: id. */
  function CreateDataObject(table: string, row: Series, isValid: bool): (r: Option<Entity>)
    ensures !isValid ==> r == None
    ensures !Registry.IsKnownTable(table) ==> r == None
    ensures r.Some? ==> TableName(TableOf(r.value)) == table
  {
    CreateDataObjectKeyed("id", table, row, isValid)
  }

  /** The field kinds a row of a validated batch carries once its required fields are present. */
  predicate Typed(table: string, r: Row)
  {
    if table == "hired_employees" then
      |r| == 6 && r[0].IntVal? && r[1].Text? && r[2].TimeVal? && r[3].IntVal? && r[4].IntVal? && r[5].Text?
    else
      |r| == 2 && r[0].IntVal? && r[1].Text?
  }

  /** Reference mapping of a validated row to its model object, column by column. */
  function Expected(table: string, r: Row): Entity
    requires Registry.IsKnownTable(table) && Typed(table, r)
  {
    if table == "departments" then DepartmentRow(Department(r[0].n, r[1].text))
    else if table == "jobs" then JobRow(Job(r[0].n, r[1].text))
    else HiredEmployeeRow(HiredEmployee(r[0].n, r[1].text, r[2].t, r[5].text, r[3].n, r[4].n))
  }

  /** A raw field that is kept in a complete coerced row has the kind its coercion gives. */
  lemma ValidRowTyped(table: string, raw: Row)
    requires Registry.IsKnownTable(table) && |raw| == |Registry.Columns(table).value|
    requires forall k :: 0 <= k < |raw| ==> IsRaw(raw[k])
    requires Validator.IsValidRow(table, raw)
    ensures Typed(table, Validator.CoerceRow(table, raw))
  {
    var r := Validator.CoerceRow(table, raw);
    var idx := Validator.RequiredIndices(table);
    assert forall j :: 0 <= j < |idx| ==> !r[idx[j]].Missing?;
    if table == "hired_employees" {
      assert idx[0] == 0 && idx[1] == 1 && idx[2] == 2 && idx[3] == 3 && idx[4] == 4;
      assert r[5] == raw[2];
    } else {
      assert idx[0] == 0 && idx[1] == 1;
    }
  }

  /** Every row a validator keeps from raw input has the kinds Typed names. */
  lemma ValidRowsTyped(table: string, raw: seq<Row>)
    requires Registry.IsKnownTable(table) && Validator.RowsFit(table, raw)
    requires forall i, k :: 0 <= i < |raw| && 0 <= k < |raw[i]| ==> IsRaw(raw[i][k])
    ensures forall x :: x in Validator.ValidRows(table, raw) ==> Typed(table, x)
  {
    var coerced := Validator.CoercedRows(table, raw);
    forall x | x in Validator.ValidRows(table, raw)
      ensures Typed(table, x)
    {
      assert x in coerced;
      var i :| 0 <= i < |coerced| && coerced[i] == x;
      ValidRowTyped(table, raw[i]);
    }
  }

  /** Every row the validators keep maps to its model object, keyed by the row's id column. */
  lemma MapsValidRow(table: string, r: Row)
    requires Registry.IsKnownTable(table) && Typed(table, r)
    ensures CreateDataObject(table, Series(Validator.ValidatedColumns(table), r), true) == Some(Expected(table, r))
    ensures KeyOf(Expected(table, r)) == r[0].n
  {
    if table == "hired_employees" {
      MapsHire(r);
    } else {
      MapsNamedRow(table, r);
    }
  }

  lemma MapsNamedRow(table: string, r: Row)
    requires table == "departments" || table == "jobs"
    requires Typed(table, r)
    ensures CreateDataObject(table, Series(Validator.ValidatedColumns(table), r), true) == Some(Expected(table, r))
  {
    var cols := Validator.ValidatedColumns(table);
    assert IndexOf(cols, "id") == 0 && IndexOf(cols, cols[1]) == 1;
  }

  lemma MapsHire(r: Row)
    requires Typed("hired_employees", r)
    ensures CreateDataObject("hired_employees", Series(Validator.ValidatedColumns("hired_employees"), r), true)
      == Some(Expected("hired_employees", r))
  {
    HireFields(r);
    ConstructsHire(r);
  }

  /** The labels of a validated hired_employees row find its fields. */
  lemma HireFields(r: Row)
    requires |r| == 6
    ensures var row := Series(Validator.ValidatedColumns("hired_employees"), r);
      && Get(row, "id") == Some(r[0]) && Get(row, "name") == Some(r[1]) && Get(row, "datetime") == Some(r[2])
      && Get(row, "department_id") == Some(r[3]) && Get(row, "job_id") == Some(r[4])
      && "datetime_str" in row.labels && Get(row, "datetime_str") == Some(r[5])
  {
    Validator.ColumnPositions();
  }

  lemma ConstructsHire(r: Row)
    requires Typed("hired_employees", r)
    ensures Construct(HiredEmployeeModel, map["id" := r[0], "name" := r[1], "datetime" := r[2], "datetime_str" := r[5],
                                              "department_id" := r[3], "job_id" := r[4]])
      == Some(Expected("hired_employees", r))
  {
  }

  /** A hired_employees row without a datetime_str column is stored with an empty datetime_str. */
  lemma HireWithoutTextColumn(r: Row)
    requires |r| == 5 && r[0].IntVal? && r[1].Text? && r[2].TimeVal? && r[3].IntVal? && r[4].IntVal?
    ensures CreateDataObject("hired_employees", Series(Registry.HiredEmployeesColumns, r), true)
      == Some(HiredEmployeeRow(HiredEmployee(r[0].n, r[1].text, r[2].t, "", r[3].n, r[4].n)))
  {
    LoadedHireFields(r);
    var withText := r + [Text("")];
    assert Typed("hired_employees", withText);
    ConstructsHire(withText);
    assert withText[0] == r[0] && withText[1] == r[1] && withText[2] == r[2] && withText[3] == r[3] && withText[4] == r[4];
  }

  /** The labels of a hired_employees row as loaded find its fields; there is no datetime_str. */
  lemma LoadedHireFields(r: Row)
    requires |r| == 5
    ensures var row := Series(Registry.HiredEmployeesColumns, r);
      && Get(row, "id") == Some(r[0]) && Get(row, "name") == Some(r[1]) && Get(row, "datetime") == Some(r[2])
      && Get(row, "department_id") == Some(r[3]) && Get(row, "job_id") == Some(r[4])
      && "datetime_str" !in row.labels
  {
    LoadedColumnPositions();
  }

  lemma LoadedColumnPositions()
    ensures var cols := Registry.HiredEmployeesColumns;
      && IndexOf(cols, "id") == 0 && IndexOf(cols, "name") == 1 && IndexOf(cols, "datetime") == 2
      && IndexOf(cols, "department_id") == 3 && IndexOf(cols, "job_id") == 4
  {
  }

  /**
   * The employee_id keyword loses every hire: as written, a well-formed
   * hired_employees row maps to nothing, where the corrected mapping stores it.
   */
  lemma EmployeeIdKeyLosesHires(r: Row)
    requires Typed("hired_employees", r)
    ensures CreateDataObjectAsWritten("hired_employees", Series(Validator.ValidatedColumns("hired_employees"), r), true) == None
    ensures CreateDataObject("hired_employees", Series(Validator.ValidatedColumns("hired_employees"), r), true).Some?
  {
    MapsValidRow("hired_employees", r);
  }
}
