/**
 * The table registry and import defaults of util.py: which tables the
 * importer knows and the positional column names of each (the CSV files
 * have no header row).
 */
module Registry {
  import opened Wrappers

  /** Default number of rows per batch. */
  const ChunkSize: nat := 1000

  /** Largest batch size the import form accepts (app.py:95). */
  const MaxChunkSize: nat := 1000

  /** Module-level defaults; the second assignment of file_name wins. */
  const TableName: string := "hired_employees"
  const FileName: string := "./data/hired_employees_error.csv"

  const DepartmentsColumns: seq<string> := ["id", "department"]
  const JobsColumns: seq<string> := ["id", "job"]
  const HiredEmployeesColumns: seq<string> := ["id", "name", "datetime", "department_id", "job_id"]

  const ColumnsByTable: map<string, seq<string>> :=
    map["departments" := DepartmentsColumns, "jobs" := JobsColumns, "hired_employees" := HiredEmployeesColumns]

  predicate Distinct(s: seq<string>) { forall i, j :: 0 <= i < j < |s| ==> s[i] != s[j] }

  predicate IsKnownTable(table: string)
  {
    table == "departments" || table == "jobs" || table == "hired_employees"
  }

  /**
   * columns_names_by_table[table]: defined for exactly the three known
   * tables; every column list starts with id and has no repeated name.
   */
  function Columns(table: string): (r: Option<seq<string>>)
    ensures r.Some? <==> IsKnownTable(table)
    ensures r.Some? ==> 2 <= |r.value| && r.value[0] == "id" && Distinct(r.value)
    ensures table == "departments" ==> r == Some(["id", "department"])
    ensures table == "jobs" ==> r == Some(["id", "job"])
    ensures table == "hired_employees" ==> r == Some(["id", "name", "datetime", "department_id", "job_id"])
  {
    if table in ColumnsByTable then Some(ColumnsByTable[table]) else None
  }
}
