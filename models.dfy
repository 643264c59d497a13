/**
 * The relational store of models.py: the three imported tables keyed by the
 * id the data supplies (no autoincrement), and the three audit tables whose
 * ids the store assigns (autoincrement). A table can be created and dropped
 * as a whole; a session collects added rows and commits them all or none.
 */
module Models {
  import opened Wrappers
  import opened Dates

  datatype Department = Department(id: int, department: string)
  datatype Job = Job(id: int, job: string)
  datatype HiredEmployee = HiredEmployee(id: int, name: string, datetime: DateTime, datetimeStr: string,
                                         departmentId: int, jobId: int)
  datatype BackupFile = BackupFile(tableName: string, datetime: DateTime, avroFile: string)
  datatype Transaction = Transaction(tableName: string, datetime: DateTime, jsonLogFile: string)
  datatype Report = Report(reportName: string, datetime: DateTime, html: string, csv: string, images: string)

  /** An object added to a session: one row of one of the three imported tables. */
  datatype Entity = DepartmentRow(department: Department) | JobRow(job: Job) | HiredEmployeeRow(hire: HiredEmployee)

  function TableOf(e: Entity): TableId
  {
    match e
    case DepartmentRow(_) => Departments
    case JobRow(_) => Jobs
    case HiredEmployeeRow(_) => HiredEmployees
  }

  function KeyOf(e: Entity): int
  {
    match e
    case DepartmentRow(d) => d.id
    case JobRow(j) => j.id
    case HiredEmployeeRow(h) => h.id
  }

  /** Base.metadata: every table the models declare. */
  datatype TableId = Departments | Jobs | HiredEmployees | BackupsFiles | Transactions | Reports

  const DeclaredTables: set<TableId> := {Departments, Jobs, HiredEmployees, BackupsFiles, Transactions, Reports}

  /** The __tablename__ of each model. */
  function TableName(t: TableId): string
  {
    match t
    case Departments => "departments"
    case Jobs => "jobs"
    case HiredEmployees => "hired_employees"
    case BackupsFiles => "backups_files"
    case Transactions => "transactions"
    case Reports => "reports"
  }

  /** Base.metadata.tables[name]: the declared table of that name, if there is one. */
  function TableNamed(name: string): (r: Option<TableId>)
    ensures r.Some? ==> TableName(r.value) == name
    ensures r.None? ==> forall t :: TableName(t) != name
  {
    if name == "departments" then Some(Departments)
    else if name == "jobs" then Some(Jobs)
    else if name == "hired_employees" then Some(HiredEmployees)
    else if name == "backups_files" then Some(BackupsFiles)
    else if name == "transactions" then Some(Transactions)
    else if name == "reports" then Some(Reports)
    else None
  }

  /** Every declared table is found under its own name, and no two share a name. */
  lemma TableNameRoundTrip(t: TableId)
    ensures TableNamed(TableName(t)) == Some(t)
  {
  }

  datatype StoreError =
    | NotInMetadata(name: string)     // KeyError from Base.metadata.tables[name]
    | NoSuchTable(table: TableId)     // the database refuses to drop or write a table that does not exist
    | IntegrityError                  // a commit that would repeat a primary key

  /** The part of the store that session commits write to. */
  datatype ImportTables = ImportTables(existing: set<TableId>, departments: map<int, Department>,
                                       jobs: map<int, Job>, hiredEmployees: map<int, HiredEmployee>)

  /** The table of that name already holds a row with primary key k. */
  predicate HasKey(t: ImportTables, table: TableId, k: int)
  {
    match table
    case Departments => k in t.departments
    case Jobs => k in t.jobs
    case HiredEmployees => k in t.hiredEmployees
    case _ => false
  }

  /** The store holds exactly this row under its key. */
  predicate Contains(t: ImportTables, e: Entity)
  {
    match e
    case DepartmentRow(d) => d.id in t.departments && t.departments[d.id] == d
    case JobRow(j) => j.id in t.jobs && t.jobs[j.id] == j
    case HiredEmployeeRow(h) => h.id in t.hiredEmployees && t.hiredEmployees[h.id] == h
  }

  /**
   * A commit of these added rows goes through: every target table exists, no
   * added id is already in its table, and no two added rows of one table share an id.
   */
  predicate CanCommit(t: ImportTables, added: seq<Entity>)
  {
    && (forall i :: 0 <= i < |added| ==> TableOf(added[i]) in t.existing && !HasKey(t, TableOf(added[i]), KeyOf(added[i])))
    && (forall i, j :: 0 <= i < j < |added| && TableOf(added[i]) == TableOf(added[j]) ==> KeyOf(added[i]) != KeyOf(added[j]))
  }

  function Insert(t: ImportTables, e: Entity): ImportTables
  {
    match e
    case DepartmentRow(d) => t.(departments := t.departments[d.id := d])
    case JobRow(j) => t.(jobs := t.jobs[j.id := j])
    case HiredEmployeeRow(h) => t.(hiredEmployees := t.hiredEmployees[h.id := h])
  }

  /** The store after the added rows are inserted in order. */
  function Inserted(t: ImportTables, added: seq<Entity>): (r: ImportTables)
    ensures r.existing == t.existing
    decreases |added|
  {
    if added == [] then t else Insert(Inserted(t, added[..|added| - 1]), added[|added| - 1])
  }

  /** After inserting, a key is present iff it was before or one of the added rows of that table carries it. */
  lemma {:induction false} InsertedKeys(t: ImportTables, added: seq<Entity>, table: TableId, k: int)
    ensures HasKey(Inserted(t, added), table, k) <==>
      HasKey(t, table, k) || exists j :: 0 <= j < |added| && TableOf(added[j]) == table && KeyOf(added[j]) == k
    decreases |added|
  {
    if added != [] {
      var init, last := added[..|added| - 1], added[|added| - 1];
      InsertedKeys(t, init, table, k);
      InsertHasKey(Inserted(t, init), last, table, k);
      if exists j :: 0 <= j < |init| && TableOf(init[j]) == table && KeyOf(init[j]) == k {
        var j :| 0 <= j < |init| && TableOf(init[j]) == table && KeyOf(init[j]) == k;
        assert added[j] == init[j];
      }
      if exists j :: 0 <= j < |added| && TableOf(added[j]) == table && KeyOf(added[j]) == k {
        var j :| 0 <= j < |added| && TableOf(added[j]) == table && KeyOf(added[j]) == k;
        if j < |init| {
          assert init[j] == added[j];
        }
      }
    }
  }

  /** One insert occupies exactly its own key. */
  lemma InsertHasKey(t: ImportTables, e: Entity, table: TableId, k: int)
    ensures HasKey(Insert(t, e), table, k) <==> HasKey(t, table, k) || (TableOf(e) == table && KeyOf(e) == k)
  {
  }

  /** After one insert the store holds the inserted row, and every other row whose key it did not take. */
  lemma InsertContains(t: ImportTables, e: Entity, x: Entity)
    ensures Contains(Insert(t, e), x) <==>
      x == e || (Contains(t, x) && (TableOf(x) != TableOf(e) || KeyOf(x) != KeyOf(e)))
  {
  }

  /** A stored row occupies its key. */
  lemma ContainsHasKey(t: ImportTables, x: Entity)
    ensures Contains(t, x) ==> HasKey(t, TableOf(x), KeyOf(x))
  {
  }

  /**
   * A commit that goes through stores every added row under its id, keeps
   * every row that was there, and adds nothing else.
   */
  lemma {:induction false} CommitStoresAddedRows(t: ImportTables, added: seq<Entity>)
    requires CanCommit(t, added)
    ensures forall i :: 0 <= i < |added| ==> Contains(Inserted(t, added), added[i])
    ensures forall e :: Contains(t, e) ==> Contains(Inserted(t, added), e)
    ensures forall e :: Contains(Inserted(t, added), e) ==> Contains(t, e) || e in added
    decreases |added|
  {
    if added != [] {
      var init, last := added[..|added| - 1], added[|added| - 1];
      assert added == init + [last];
      CanCommitExtend(t, init, last);
      CommitStoresAddedRows(t, init);
      var before := Inserted(t, init);
      forall x
        ensures Contains(Inserted(t, added), x) <==>
          x == last || (Contains(before, x) && (TableOf(x) != TableOf(last) || KeyOf(x) != KeyOf(last)))
        ensures Contains(before, x) ==> HasKey(before, TableOf(x), KeyOf(x))
      {
        InsertContains(before, last, x);
        ContainsHasKey(before, x);
      }
    }
  }

  class Database {
    var existing: set<TableId>
    var departments: map<int, Department>
    var jobs: map<int, Job>
    var hiredEmployees: map<int, HiredEmployee>
    var backupsFiles: map<int, BackupFile>
    var transactions: map<int, Transaction>
    var reports: map<int, Report>
    // AUTO_INCREMENT counters of the audit tables
    var nextBackupFileId: int
    var nextTransactionId: int
    var nextReportId: int

    ghost predicate Valid()
      reads this
    {
      // imported rows sit under their own id, and only in tables that exist
      && Keyed(ImportTables(existing, departments, jobs, hiredEmployees))
      && LaidOut(ImportTables(existing, departments, jobs, hiredEmployees))
      // an audit table that does not exist is empty, and its ids lie below the next id to assign
      && Numbered(BackupsFiles in existing, backupsFiles, nextBackupFileId)
      && Numbered(Transactions in existing, transactions, nextTransactionId)
      && Numbered(Reports in existing, reports, nextReportId)
    }

    function ImportState(): ImportTables
      reads this
    {
      ImportTables(existing, departments, jobs, hiredEmployees)
    }

    /** A database with no tables yet. */
    constructor ()
      ensures Valid() && existing == {}
    {
      existing := {};
      departments, jobs, hiredEmployees := map[], map[], map[];
      backupsFiles, transactions, reports := map[], map[], map[];
      nextBackupFileId, nextTransactionId, nextReportId := 1, 1, 1;
    }

    /** initialize_db: create every declared table that is missing; existing tables keep their rows. */
    method InitializeDb()
      requires Valid()
      modifies this
      ensures Valid() && existing == DeclaredTables
      ensures departments == old(departments) && jobs == old(jobs) && hiredEmployees == old(hiredEmployees)
      ensures backupsFiles == old(backupsFiles) && transactions == old(transactions) && reports == old(reports)
      ensures nextBackupFileId == old(nextBackupFileId) && nextTransactionId == old(nextTransactionId)
      ensures nextReportId == old(nextReportId)
    {
      existing := DeclaredTables;
    }

    /** delete_all_tables: drop every table. */
    method DeleteAllTables()
      modifies this
      ensures Valid() && existing == {}
      ensures departments == map[] && jobs == map[] && hiredEmployees == map[]
      ensures backupsFiles == map[] && transactions == map[] && reports == map[]
      ensures nextBackupFileId == 1 && nextTransactionId == 1 && nextReportId == 1
    {
      existing := {};
      departments, jobs, hiredEmployees := map[], map[], map[];
      backupsFiles, transactions, reports := map[], map[], map[];
      nextBackupFileId, nextTransactionId, nextReportId := 1, 1, 1;
    }

    /** delete_table(name): look the name up among the declared tables, then drop that table. */
    method DeleteTable(name: string) returns (r: Result<(), StoreError>)
      requires Valid()
      modifies this
      ensures Valid()
      ensures TableNamed(name).None? ==> r == Failure(NotInMetadata(name)) && unchanged(this)
      ensures TableNamed(name).Some? && TableNamed(name).value !in old(existing) ==>
        r == Failure(NoSuchTable(TableNamed(name).value)) && unchanged(this)
      ensures TableNamed(name).Some? && TableNamed(name).value in old(existing) ==>
        r == Success(()) && existing == old(existing) - {TableNamed(name).value}
      ensures TableNamed(name) != Some(Departments) ==> departments == old(departments)
      ensures TableNamed(name) != Some(Jobs) ==> jobs == old(jobs)
      ensures TableNamed(name) != Some(HiredEmployees) ==> hiredEmployees == old(hiredEmployees)
      ensures TableNamed(name) != Some(BackupsFiles) ==> backupsFiles == old(backupsFiles) && nextBackupFileId == old(nextBackupFileId)
      ensures TableNamed(name) != Some(Transactions) ==> transactions == old(transactions) && nextTransactionId == old(nextTransactionId)
      ensures TableNamed(name) != Some(Reports) ==> reports == old(reports) && nextReportId == old(nextReportId)
    {
      var id := TableNamed(name);
      if id.None? {
        return Failure(NotInMetadata(name));
      }
      if id.value !in existing {
        return Failure(NoSuchTable(id.value));
      }
      DropTable(id.value);
      r := Success(());
    }

    /** table.drop(engine) for a table that exists: it goes, with all its rows; an audit id counter starts again at 1. */
    method DropTable(table: TableId)
      requires Valid() && table in existing
      modifies this
      ensures Valid() && existing == old(existing) - {table}
      ensures departments == (if table == Departments then map[] else old(departments))
      ensures jobs == (if table == Jobs then map[] else old(jobs))
      ensures hiredEmployees == (if table == HiredEmployees then map[] else old(hiredEmployees))
      ensures backupsFiles == (if table == BackupsFiles then map[] else old(backupsFiles))
      ensures transactions == (if table == Transactions then map[] else old(transactions))
      ensures reports == (if table == Reports then map[] else old(reports))
      ensures nextBackupFileId == (if table == BackupsFiles then 1 else old(nextBackupFileId))
      ensures nextTransactionId == (if table == Transactions then 1 else old(nextTransactionId))
      ensures nextReportId == (if table == Reports then 1 else old(nextReportId))
    {
      if table.Departments? || table.Jobs? || table.HiredEmployees? {
        DropImportTable(table);
      } else {
        DropAuditTable(table);
      }
    }

    /** Drop one of the three imported tables. */
    method DropImportTable(table: TableId)
      requires Valid() && table in existing && (table.Departments? || table.Jobs? || table.HiredEmployees?)
      modifies this
      ensures Valid() && existing == old(existing) - {table}
      ensures departments == (if table == Departments then map[] else old(departments))
      ensures jobs == (if table == Jobs then map[] else old(jobs))
      ensures hiredEmployees == (if table == HiredEmployees then map[] else old(hiredEmployees))
      ensures backupsFiles == old(backupsFiles) && transactions == old(transactions) && reports == old(reports)
      ensures nextBackupFileId == old(nextBackupFileId) && nextTransactionId == old(nextTransactionId)
      ensures nextReportId == old(nextReportId)
    {
      existing := existing - {table};
      if table == Departments {
        departments := map[];
      } else if table == Jobs {
        jobs := map[];
      } else {
        hiredEmployees := map[];
      }
    }

    /** Drop one of the three audit tables; its id counter starts again at 1. */
    method DropAuditTable(table: TableId)
      requires Valid() && table in existing && (table.BackupsFiles? || table.Transactions? || table.Reports?)
      modifies this
      ensures Valid() && existing == old(existing) - {table}
      ensures departments == old(departments) && jobs == old(jobs) && hiredEmployees == old(hiredEmployees)
      ensures backupsFiles == (if table == BackupsFiles then map[] else old(backupsFiles))
      ensures transactions == (if table == Transactions then map[] else old(transactions))
      ensures reports == (if table == Reports then map[] else old(reports))
      ensures nextBackupFileId == (if table == BackupsFiles then 1 else old(nextBackupFileId))
      ensures nextTransactionId == (if table == Transactions then 1 else old(nextTransactionId))
      ensures nextReportId == (if table == Reports then 1 else old(nextReportId))
    {
      existing := existing - {table};
      if table == BackupsFiles {
        backupsFiles, nextBackupFileId := map[], 1;
      } else if table == Transactions {
        transactions, nextTransactionId := map[], 1;
      } else {
        reports, nextReportId := map[], 1;
      }
    }

    /**
     * session.commit() of the added rows in one transaction: all of them are
     * inserted, or, on a missing table or a repeated primary key, none.
     */
    method Commit(added: seq<Entity>) returns (ok: bool)
      requires Valid()
      modifies this
      ensures Valid()
      ensures ok == CanCommit(old(ImportState()), added)
      ensures ok ==> ImportState() == Inserted(old(ImportState()), added)
      ensures !ok ==> ImportState() == old(ImportState())
      ensures backupsFiles == old(backupsFiles) && transactions == old(transactions) && reports == old(reports)
      ensures nextBackupFileId == old(nextBackupFileId) && nextTransactionId == old(nextTransactionId)
      ensures nextReportId == old(nextReportId)
    {
      var after;
      ok, after := PlanCommit(ImportState(), added);
      if ok {
        CommitKeepsLayout(ImportState(), added);
        departments, jobs, hiredEmployees := after.departments, after.jobs, after.hiredEmployees;
      }
    }

    /** Insert a backups_files row; the store assigns the next id. */
    method InsertBackupFile(row: BackupFile) returns (r: Result<int, StoreError>)
      requires Valid()
      modifies this
      ensures Valid()
      ensures BackupsFiles !in old(existing) ==> r == Failure(NoSuchTable(BackupsFiles)) && unchanged(this)
      ensures BackupsFiles in old(existing) ==>
        (r.Success? && r.value !in old(backupsFiles) && backupsFiles == old(backupsFiles)[r.value := row])
      ensures ImportState() == old(ImportState()) && transactions == old(transactions) && reports == old(reports)
    {
      if BackupsFiles !in existing {
        return Failure(NoSuchTable(BackupsFiles));
      }
      r := Success(nextBackupFileId);
      backupsFiles := backupsFiles[nextBackupFileId := row];
      nextBackupFileId := nextBackupFileId + 1;
    }

    /** Insert a transactions row (table name, time, log file); the store assigns the next id. */
    method InsertTransaction(row: Transaction) returns (r: Result<int, StoreError>)
      requires Valid()
      modifies this
      ensures Valid()
      ensures Transactions !in old(existing) ==> r == Failure(NoSuchTable(Transactions)) && unchanged(this)
      ensures Transactions in old(existing) ==>
        (r.Success? && r.value !in old(transactions) && transactions == old(transactions)[r.value := row])
      ensures ImportState() == old(ImportState()) && backupsFiles == old(backupsFiles) && reports == old(reports)
    {
      if Transactions !in existing {
        return Failure(NoSuchTable(Transactions));
      }
      r := Success(nextTransactionId);
      transactions := transactions[nextTransactionId := row];
      nextTransactionId := nextTransactionId + 1;
    }

    /** Insert a reports row; the store assigns the next id. */
    method InsertReport(row: Report) returns (r: Result<int, StoreError>)
      requires Valid()
      modifies this
      ensures Valid()
      ensures Reports !in old(existing) ==> r == Failure(NoSuchTable(Reports)) && unchanged(this)
      ensures Reports in old(existing) ==>
        (r.Success? && r.value !in old(reports) && reports == old(reports)[r.value := row])
      ensures ImportState() == old(ImportState()) && backupsFiles == old(backupsFiles) && transactions == old(transactions)
    {
      if Reports !in existing {
        return Failure(NoSuchTable(Reports));
      }
      r := Success(nextReportId);
      reports := reports[nextReportId := row];
      nextReportId := nextReportId + 1;
    }
  }

  /**
   * A table is "keyed" when every row sits under its own id, and "laid out"
   * when a table that does not exist holds no rows.
   */
  predicate Keyed(t: ImportTables)
  {
    && (forall k :: k in t.departments ==> t.departments[k].id == k)
    && (forall k :: k in t.jobs ==> t.jobs[k].id == k)
    && (forall k :: k in t.hiredEmployees ==> t.hiredEmployees[k].id == k)
  }

  /** An autoincrement table: empty unless it exists, and every id assigned so far lies in [1, next). */
  predicate Numbered<V>(present: bool, m: map<int, V>, next: int)
  {
    && (!present ==> m == map[])
    && 1 <= next && forall k :: k in m ==> 1 <= k < next
  }

  predicate LaidOut(t: ImportTables)
  {
    && (Departments !in t.existing ==> t.departments == map[])
    && (Jobs !in t.existing ==> t.jobs == map[])
    && (HiredEmployees !in t.existing ==> t.hiredEmployees == map[])
  }

  /** A commit that goes through keeps every row under its own id and writes only to existing tables. */
  lemma {:induction false} CommitKeepsLayout(t: ImportTables, added: seq<Entity>)
    requires Keyed(t) && LaidOut(t) && CanCommit(t, added)
    ensures Keyed(Inserted(t, added)) && LaidOut(Inserted(t, added))
    decreases |added|
  {
    if added != [] {
      var init, last := added[..|added| - 1], added[|added| - 1];
      assert CanCommit(t, init);
      CommitKeepsLayout(t, init);
      assert TableOf(last) in t.existing;
    }
  }

  /**
   * The transaction a commit runs: insert the added rows one by one into a
   * working copy, stopping at the first missing table or repeated key.
   */
  method PlanCommit(start: ImportTables, added: seq<Entity>) returns (ok: bool, after: ImportTables)
    ensures ok <==> CanCommit(start, added)
    ensures ok ==> after == Inserted(start, added)
  {
    after := start;
    ok := true;
    var i := 0;
    while i < |added| && ok
      invariant 0 <= i <= |added|
      invariant ok ==> CanCommit(start, added[..i]) && after == Inserted(start, added[..i])
      invariant !ok ==> !CanCommit(start, added)
    {
      var e := added[i];
      assert added[..i + 1] == added[..i] + [e];
      assert added[..i + 1][..i] == added[..i];
      CanCommitExtend(start, added[..i], e);
      if TableOf(e) in after.existing && !HasKey(after, TableOf(e), KeyOf(e)) {
        after := Insert(after, e);
      } else {
        CanCommitPrefix(start, added, i + 1);
        ok := false;
      }
      i := i + 1;
    }
    if ok {
      assert added[..i] == added;
    }
  }

  /** One more row can be committed iff its table exists and its key is free after the earlier rows. */
  lemma CanCommitExtend(t: ImportTables, es: seq<Entity>, e: Entity)
    ensures CanCommit(t, es + [e]) <==>
      CanCommit(t, es) && TableOf(e) in t.existing && !HasKey(Inserted(t, es), TableOf(e), KeyOf(e))
  {
    InsertedKeys(t, es, TableOf(e), KeyOf(e));
    var all := es + [e];
    assert forall i :: 0 <= i < |es| ==> all[i] == es[i];
    assert all[|es|] == e;
    if CanCommit(t, all) {
      forall j | 0 <= j < |es| && TableOf(es[j]) == TableOf(e)
        ensures KeyOf(es[j]) != KeyOf(e)
      {
        assert all[j] == es[j];
      }
    }
  }

  /** Any prefix of a committable list is committable. */
  lemma CanCommitPrefix(t: ImportTables, es: seq<Entity>, n: nat)
    requires n <= |es|
    ensures CanCommit(t, es) ==> CanCommit(t, es[..n])
  {
  }

  /** A SQLAlchemy session: the rows added since it was opened, written by Commit. */
  class Session {
    var added: seq<Entity>

    constructor ()
      ensures added == []
    {
      added := [];
    }

    /** session.add(obj) */
    method Add(e: Entity)
      modifies this
      ensures added == old(added) + [e]
    {
      added := added + [e];
    }
  }
}
