/**
 * The import driver of csv_to_db.py: load the file in batches, split every
 * batch into valid and invalid rows, add an object per valid row to one
 * session, log every batch, and commit the session once at the end.
 */
module Importer {
  import opened Wrappers
  import opened Cells
  import opened Frames
  import opened Models
  import opened Loader
  import opened Mapper
  import Registry
  import Validator

  /** One entry of separate_valid_invalid_data's result: [valid_data, invalid_data, df_copy]. */
  datatype BatchResult = BatchResult(valid: Table, invalid: Table, original: Table)

  /** The batches as the loader delivers them for a known table. */
  ghost predicate LoadedBatches(table: string, batches: seq<Table>)
    requires Registry.IsKnownTable(table)
  {
    forall i :: 0 <= i < |batches| ==>
      batches[i].columns == Registry.Columns(table).value && WellFormed(batches[i]) && RawRows(batches[i].rows)
  }

  /** What separate_valid_invalid_data makes of one batch. */
  function SplitBatch(table: string, batch: Table): BatchResult
    requires Registry.IsKnownTable(table) && batch.columns == Registry.Columns(table).value && WellFormed(batch)
  {
    var cols := Validator.ValidatedColumns(table);
    BatchResult(Table(cols, Validator.ValidRows(table, batch.rows)), Table(cols, Validator.InvalidRows(table, batch.rows)), batch)
  }

  function SplitAll(table: string, batches: seq<Table>): (r: seq<BatchResult>)
    requires Registry.IsKnownTable(table)
    requires forall i :: 0 <= i < |batches| ==> batches[i].columns == Registry.Columns(table).value && WellFormed(batches[i])
    ensures |r| == |batches|
  {
    seq(|batches|, i requires 0 <= i < |batches| => SplitBatch(table, batches[i]))
  }

  /**
   * separate_valid_invalid_data: validate a fresh frame per batch, keeping
   * the batch as it was loaded beside the two halves. With an unknown table
   * the first batch finds no validator and the caught error gives None; with
   * no batch at all the result is empty whatever the table.
   */
  method SeparateValidInvalidData(batches: seq<Table>, table: string) returns (results: Option<seq<BatchResult>>)
    requires forall i :: 0 <= i < |batches| ==> WellFormed(batches[i])
    requires Registry.IsKnownTable(table) ==>
      forall i :: 0 <= i < |batches| ==> batches[i].columns == Registry.Columns(table).value
    ensures batches == [] ==> results == Some([])
    ensures !Registry.IsKnownTable(table) && batches != [] ==> results == None
    ensures Registry.IsKnownTable(table) ==> results == Some(SplitAll(table, batches))
  {
    if batches == [] {
      return Some([]);
    }
    if !Registry.IsKnownTable(table) {
      return None;
    }
    var out: seq<BatchResult> := [];
    var i := 0;
    while i < |batches|
      invariant 0 <= i <= |batches| && |out| == i
      invariant forall j :: 0 <= j < i ==> out[j] == SplitBatch(table, batches[j])
    {
      var r := ValidateBatch(table, batches[i]);
      out := out + [r];
      i := i + 1;
    }
    assert out == SplitAll(table, batches);
    results := Some(out);
  }

  /** The body of separate_valid_invalid_data's loop: copy the batch, then validate it in place. */
  method ValidateBatch(table: string, batch: Table) returns (r: BatchResult)
    requires Registry.IsKnownTable(table) && batch.columns == Registry.Columns(table).value && WellFormed(batch)
    ensures r == SplitBatch(table, batch)
  {
    var df := new DataFrame(batch);
    var original := df.Copy();
    var invalid: Table;
    if table == "hired_employees" {
      invalid := Validator.ValidateHiredEmployees(df);
    } else if table == "departments" {
      invalid := Validator.ValidateDepartments(df);
    } else {
      invalid := Validator.ValidateJobs(df);
    }
    r := BatchResult(df.Snapshot(), invalid, original);
  }

  /** The error log insert_data_to_db builds for one batch. */
  datatype LogRecord = LogRecord(fileName: string, tableName: string, batchNumber: nat,
                                 totalValidRecords: nat, totalInvalidRecords: nat, invalidData: Table)

  /** The log of the batch at index i: numbered from 1, its invalid rows with missing fields filled with 0. */
  function LogFor(table: string, i: nat, b: BatchResult): LogRecord
  {
    LogRecord(Registry.FileName, table, i + 1, |b.valid.rows|, |b.invalid.rows|,
              Table(b.invalid.columns, Filled(b.invalid.rows, IntVal(0))))
  }

  function Logs(table: string, results: seq<BatchResult>): (logs: seq<LogRecord>)
    ensures |logs| == |results|
  {
    seq(|results|, i requires 0 <= i < |results| => LogFor(table, i, results[i]))
  }

  /** Every valid row of the batch maps to a model object when the hire's id is passed under idKey. */
  predicate Mappable(idKey: string, table: string, t: Table)
  {
    forall j :: 0 <= j < |t.rows| ==> CreateDataObjectKeyed(idKey, table, Series(t.columns, t.rows[j]), true).Some?
  }

  /** The objects the session receives for these rows, in row order. */
  function Objects(idKey: string, table: string, columns: seq<string>, rows: seq<Row>): (r: seq<Entity>)
    requires forall j :: 0 <= j < |rows| ==> CreateDataObjectKeyed(idKey, table, Series(columns, rows[j]), true).Some?
    ensures |r| == |rows|
  {
    seq(|rows|, j requires 0 <= j < |rows| => CreateDataObjectKeyed(idKey, table, Series(columns, rows[j]), true).value)
  }

  lemma ObjectsSnoc(idKey: string, table: string, columns: seq<string>, rows: seq<Row>, j: nat)
    requires j < |rows|
    requires forall k :: 0 <= k <= j ==> CreateDataObjectKeyed(idKey, table, Series(columns, rows[k]), true).Some?
    ensures Objects(idKey, table, columns, rows[..j + 1])
      == Objects(idKey, table, columns, rows[..j]) + [CreateDataObjectKeyed(idKey, table, Series(columns, rows[j]), true).value]
  {
  }

  /** Index of the first batch with a row that maps to nothing (|results| if none). */
  function FirstUnmappable(idKey: string, table: string, results: seq<BatchResult>): (n: nat)
    ensures n <= |results|
    ensures forall k :: 0 <= k < n ==> Mappable(idKey, table, results[k].valid)
    ensures n < |results| ==> !Mappable(idKey, table, results[n].valid)
    decreases |results|
  {
    if results == [] || !Mappable(idKey, table, results[0].valid) then 0
    else 1 + FirstUnmappable(idKey, table, results[1..])
  }

  /** Everything the session holds after all batches: each batch's objects, batch after batch. */
  function Added(idKey: string, table: string, results: seq<BatchResult>): seq<Entity>
    requires forall k :: 0 <= k < |results| ==> Mappable(idKey, table, results[k].valid)
    decreases |results|
  {
    if results == [] then []
    else
      var last := results[|results| - 1];
      assert Mappable(idKey, table, last.valid);
      Added(idKey, table, results[..|results| - 1]) + Objects(idKey, table, last.valid.columns, last.valid.rows)
  }

  datatype ImportError =
    | LoadFailed(error: LoadError)     // the registry lookup or read_csv raised
    | UnmappedRow(batch: nat)         // session.add(None) raised for a row of this batch (0-based)
    | CommitFailed                    // the database refused the commit; it was rolled back

  /**
   * insert_data_to_db: add an object per valid row to one session and log
   * each batch; a row that maps to nothing raises at session.add, before its
   * batch is logged and before anything is committed; otherwise the session
   * is committed once, all or nothing.
   */
  method InsertDataToDb(db: Database, results: seq<BatchResult>, table: string, idKey: string)
    returns (logs: seq<LogRecord>, outcome: Result<(), ImportError>)
    requires db.Valid()
    requires forall i :: 0 <= i < |results| ==> WellFormed(results[i].invalid)
    modifies db
    ensures db.Valid()
    ensures logs == Logs(table, results[..FirstUnmappable(idKey, table, results)])
    ensures FirstUnmappable(idKey, table, results) < |results| ==>
      outcome == Failure(UnmappedRow(FirstUnmappable(idKey, table, results))) && unchanged(db)
    ensures FirstUnmappable(idKey, table, results) == |results| ==>
      && (outcome.Success? <==> CanCommit(old(db.ImportState()), Added(idKey, table, results)))
      && (outcome.Success? ==> db.ImportState() == Inserted(old(db.ImportState()), Added(idKey, table, results)))
      && (outcome.Failure? ==> outcome == Failure(CommitFailed) && db.ImportState() == old(db.ImportState()))
    ensures db.backupsFiles == old(db.backupsFiles) && db.transactions == old(db.transactions)
    ensures db.reports == old(db.reports)
  {
    var session := new Session();
    var mapped;
    logs, mapped := AddBatches(session, results, table, idKey);
    if !mapped {
      return logs, Failure(UnmappedRow(FirstUnmappable(idKey, table, results)));
    }
    var ok := db.Commit(session.added);
    outcome := if ok then Success(()) else Failure(CommitFailed);
  }

  /**
   * The loop of insert_data_to_db over the batches: add each batch's objects
   * to the session and log the batch, stopping at the first batch with a row
   * that maps to nothing.
   */
  method AddBatches(session: Session, results: seq<BatchResult>, table: string, idKey: string)
    returns (logs: seq<LogRecord>, mapped: bool)
    requires session.added == []
    requires forall i :: 0 <= i < |results| ==> WellFormed(results[i].invalid)
    modifies session
    ensures mapped <==> FirstUnmappable(idKey, table, results) == |results|
    ensures logs == Logs(table, results[..FirstUnmappable(idKey, table, results)])
    ensures mapped ==> session.added == Added(idKey, table, results)
  {
    logs := [];
    var i := 0;
    while i < |results|
      invariant 0 <= i <= |results| && i <= FirstUnmappable(idKey, table, results)
      invariant logs == Logs(table, results[..i])
      invariant session.added == Added(idKey, table, results[..i])
    {
      var b := results[i];
      var ok := AddRows(session, idKey, table, b.valid);
      if !ok {
        assert FirstUnmappable(idKey, table, results) == i;
        return logs, false;
      }
      assert results[..i + 1][..i] == results[..i];
      var log := LogBatch(table, i, b);
      logs := logs + [log];
      assert logs == Logs(table, results[..i + 1]);
      i := i + 1;
    }
    assert results[..i] == results;
    mapped := true;
  }

  /** The inner loop of insert_data_to_db: session.add of the object of each valid row, stopping at one that maps to nothing. */
  method AddRows(session: Session, idKey: string, table: string, t: Table) returns (ok: bool)
    modifies session
    ensures ok == Mappable(idKey, table, t)
    ensures ok ==> session.added == old(session.added) + Objects(idKey, table, t.columns, t.rows)
  {
    ghost var start := session.added;
    var j := 0;
    while j < |t.rows|
      invariant 0 <= j <= |t.rows|
      invariant forall k :: 0 <= k < j ==> CreateDataObjectKeyed(idKey, table, Series(t.columns, t.rows[k]), true).Some?
      invariant session.added == start + Objects(idKey, table, t.columns, t.rows[..j])
    {
      var obj := CreateDataObjectKeyed(idKey, table, Series(t.columns, t.rows[j]), true);
      if obj.None? {
        return false;
      }
      ObjectsSnoc(idKey, table, t.columns, t.rows, j);
      session.Add(obj.value);
      j := j + 1;
    }
    assert t.rows[..j] == t.rows;
    return true;
  }

  /** The log of one batch: the invalid rows are copied and their missing fields filled with 0. */
  method LogBatch(table: string, i: nat, b: BatchResult) returns (log: LogRecord)
    requires WellFormed(b.invalid)
    ensures log == LogFor(table, i, b)
  {
    var copyInvalid := new DataFrame(b.invalid);
    copyInvalid.FillMissing(IntVal(0));
    log := LogRecord(Registry.FileName, table, i + 1, |b.valid.rows|, |b.invalid.rows|, copyInvalid.Snapshot());
  }

  /** With the corrected mapping, every valid row of every loaded batch maps to a model object. */
  lemma LoadedBatchesMap(table: string, batches: seq<Table>)
    requires Registry.IsKnownTable(table)
    requires LoadedBatches(table, batches)
    ensures FirstUnmappable("id", table, SplitAll(table, batches)) == |batches|
  {
    var results := SplitAll(table, batches);
    forall k | 0 <= k < |batches|
      ensures Mappable("id", table, results[k].valid)
    {
      var valid := results[k].valid;
      Mapper.ValidRowsTyped(table, batches[k].rows);
      forall j | 0 <= j < |valid.rows|
        ensures CreateDataObjectKeyed("id", table, Series(valid.columns, valid.rows[j]), true).Some?
      {
        assert valid.rows[j] in Validator.ValidRows(table, batches[k].rows);
        MapsValidRow(table, valid.rows[j]);
      }
    }
  }

  function Sum(xs: seq<nat>): nat
  {
    if xs == [] then 0 else xs[0] + Sum(xs[1..])
  }

  /** The number of records each log accounts for. */
  function Accounted(logs: seq<LogRecord>): (r: seq<nat>)
    ensures |r| == |logs|
  {
    seq(|logs|, i requires 0 <= i < |logs| => logs[i].totalValidRecords + logs[i].totalInvalidRecords)
  }

  function BatchSizes(batches: seq<Table>): (r: seq<nat>)
    ensures |r| == |batches|
  {
    seq(|batches|, i requires 0 <= i < |batches| => |batches[i].rows|)
  }

  lemma {:induction false} SumOfBatchSizes(batches: seq<Table>)
    ensures Sum(BatchSizes(batches)) == |AllRows(batches)|
    decreases |batches|
  {
    if batches != [] {
      SumOfBatchSizes(batches[1..]);
      assert BatchSizes(batches)[1..] == BatchSizes(batches[1..]);
    }
  }

  /**
   * The batch logs are numbered 1, 2, ... in batch order, each accounts for
   * every row of its batch as valid or invalid, and together they account
   * for every row of every batch.
   */
  lemma LogsAccountForEveryRow(table: string, batches: seq<Table>)
    requires Registry.IsKnownTable(table) && LoadedBatches(table, batches)
    ensures var logs := Logs(table, SplitAll(table, batches));
      && (forall i :: 0 <= i < |logs| ==> logs[i].batchNumber == i + 1)
      && (forall i :: 0 <= i < |logs| ==> logs[i].totalValidRecords + logs[i].totalInvalidRecords == |batches[i].rows|)
      && Sum(Accounted(logs)) == |AllRows(batches)|
  {
    var logs := Logs(table, SplitAll(table, batches));
    forall i | 0 <= i < |batches|
      ensures logs[i].totalValidRecords + logs[i].totalInvalidRecords == |batches[i].rows|
    {
      Validator.ValidationSplitsBatch(table, batches[i].rows);
    }
    assert Accounted(logs) == BatchSizes(batches);
    SumOfBatchSizes(batches);
  }

  /** Over a whole file, the logs account for every non-blank line exactly once. */
  lemma LogsAccountForEveryLine(lines: seq<Line>, chunkSize: int, table: string)
    requires LoadCsvData(lines, chunkSize, table).Success?
    ensures Sum(Accounted(Logs(table, SplitAll(table, LoadCsvData(lines, chunkSize, table).value)))) == |NonBlank(lines)|
  {
    LogsAccountForEveryRow(table, LoadCsvData(lines, chunkSize, table).value);
  }

  /** Index of the first batch with a valid row (|results| if none). */
  function FirstWithValid(results: seq<BatchResult>): (n: nat)
    ensures n <= |results|
    ensures forall k :: 0 <= k < n ==> results[k].valid.rows == []
    ensures n < |results| ==> results[n].valid.rows != []
    decreases |results|
  {
    if results == [] || results[0].valid.rows != [] then 0
    else 1 + FirstWithValid(results[1..])
  }

  /** As written, a batch of hires maps exactly when it has no valid row. */
  lemma AsWrittenMapsNoHire(t: Table)
    ensures Mappable("employee_id", "hired_employees", t) <==> t.rows == []
  {
    if t.rows != [] {
      assert CreateDataObjectAsWritten("hired_employees", Series(t.columns, t.rows[0]), true) == None;
    }
  }

  /**
   * As written, the hire import stops at the first batch with a valid row:
   * that row's object is None and session.add raises.
   */
  lemma {:induction false} AsWrittenStopsAtFirstValidHire(results: seq<BatchResult>)
    ensures FirstUnmappable("employee_id", "hired_employees", results) == FirstWithValid(results)
    decreases |results|
  {
    if results != [] {
      AsWrittenMapsNoHire(results[0].valid);
      AsWrittenStopsAtFirstValidHire(results[1..]);
    }
  }

  /**
   * process_valid_invalid_results: load, split, and import one file, the
   * hire's id going to the model under idKey. A failed load writes nothing;
   * a file without rows gives False and writes nothing. Otherwise the batches
   * are logged up to the first with a row that maps to nothing, where
   * session.add raises and nothing is written; when every row maps, the one
   * commit decides whether all valid rows are stored.
   */
  method ProcessValidInvalidResults(db: Database, lines: seq<Line>, chunkSize: int, table: string, idKey: string)
    returns (logs: seq<LogRecord>, outcome: Result<bool, ImportError>)
    requires db.Valid()
    modifies db
    ensures db.Valid()
    ensures LoadCsvData(lines, chunkSize, table).Failure? ==>
      outcome == Failure(LoadFailed(LoadCsvData(lines, chunkSize, table).error)) && logs == [] && unchanged(db)
    ensures LoadCsvData(lines, chunkSize, table).Success? && NonBlank(lines) == [] ==>
      outcome == Success(false) && logs == [] && unchanged(db)
    ensures LoadCsvData(lines, chunkSize, table).Success? && NonBlank(lines) != [] ==>
      var results := SplitAll(table, LoadCsvData(lines, chunkSize, table).value);
      var n := FirstUnmappable(idKey, table, results);
      && logs == Logs(table, results[..n])
      && (n < |results| ==> outcome == Failure(UnmappedRow(n)) && unchanged(db))
      && (n == |results| ==>
          && (outcome == Success(true) <==> CanCommit(old(db.ImportState()), Added(idKey, table, results)))
          && (outcome.Success? ==> outcome == Success(true) && db.ImportState() == Inserted(old(db.ImportState()), Added(idKey, table, results)))
          && (outcome.Failure? ==> outcome == Failure(CommitFailed) && db.ImportState() == old(db.ImportState())))
    ensures idKey == "id" && LoadCsvData(lines, chunkSize, table).Success? ==>
      FirstUnmappable(idKey, table, SplitAll(table, LoadCsvData(lines, chunkSize, table).value))
        == |LoadCsvData(lines, chunkSize, table).value|
    ensures idKey == "employee_id" && table == "hired_employees" && LoadCsvData(lines, chunkSize, table).Success? ==>
      var results := SplitAll(table, LoadCsvData(lines, chunkSize, table).value);
      FirstWithValid(results) < |results| ==>
        outcome == Failure(UnmappedRow(FirstWithValid(results))) && db.hiredEmployees == old(db.hiredEmployees)
    ensures db.backupsFiles == old(db.backupsFiles) && db.transactions == old(db.transactions)
    ensures db.reports == old(db.reports)
  {
    var loaded := LoadCsvData(lines, chunkSize, table);
    if loaded.Failure? {
      return [], Failure(LoadFailed(loaded.error));
    }
    if idKey == "id" {
      LoadedBatchesMap(table, loaded.value);
    }
    if idKey == "employee_id" && table == "hired_employees" {
      AsWrittenStopsAtFirstValidHire(SplitAll(table, loaded.value));
    }
    logs, outcome := ImportBatches(db, loaded.value, table, idKey);
  }

  /** Steps 2 and 3 of process_valid_invalid_results, on the loaded batches. */
  method ImportBatches(db: Database, batches: seq<Table>, table: string, idKey: string)
    returns (logs: seq<LogRecord>, outcome: Result<bool, ImportError>)
    requires db.Valid() && Registry.IsKnownTable(table) && LoadedBatches(table, batches)
    modifies db
    ensures db.Valid()
    ensures batches == [] ==> outcome == Success(false) && logs == [] && unchanged(db)
    ensures batches != [] ==>
      var results := SplitAll(table, batches);
      var n := FirstUnmappable(idKey, table, results);
      && logs == Logs(table, results[..n])
      && (n < |results| ==> outcome == Failure(UnmappedRow(n)) && unchanged(db))
      && (n == |results| ==>
          && (outcome == Success(true) <==> CanCommit(old(db.ImportState()), Added(idKey, table, results)))
          && (outcome.Success? ==> outcome == Success(true) && db.ImportState() == Inserted(old(db.ImportState()), Added(idKey, table, results)))
          && (outcome.Failure? ==> outcome == Failure(CommitFailed) && db.ImportState() == old(db.ImportState())))
    ensures db.backupsFiles == old(db.backupsFiles) && db.transactions == old(db.transactions)
    ensures db.reports == old(db.reports)
  {
    var separated := SeparateValidInvalidData(batches, table);
    var results := separated.value;
    if |results| == 0 {
      return [], Success(false);
    }
    InvalidHalvesWellFormed(table, batches);
    var inserted;
    logs, inserted := InsertDataToDb(db, results, table, idKey);
    outcome := if inserted.Success? then Success(true) else Failure(inserted.error);
  }

  /** The invalid half of a split batch has a field per validated column in every row. */
  lemma InvalidHalvesWellFormed(table: string, batches: seq<Table>)
    requires Registry.IsKnownTable(table)
    requires forall i :: 0 <= i < |batches| ==> batches[i].columns == Registry.Columns(table).value && WellFormed(batches[i])
    ensures forall i :: 0 <= i < |batches| ==> WellFormed(SplitAll(table, batches)[i].invalid)
  {
    forall i, x | 0 <= i < |batches| && x in SplitAll(table, batches)[i].invalid.rows
      ensures |x| == |Validator.ValidatedColumns(table)|
    {
      var coerced := Validator.CoercedRows(table, batches[i].rows);
      assert x in coerced;
    }
  }
}
