/**
 * load_csv_data: read a header-less CSV file in batches of at most
 * chunk_size rows, naming the columns by position from the registry.
 */
module Loader {
  import opened Wrappers
  import opened Cells
  import opened Frames
  import Registry

  /** One line of the file split into fields; None is an empty field. */
  type Line = seq<Option<string>>

  datatype LoadError =
    | UnknownTable(table: string)    // KeyError from the registry lookup
    | InvalidChunkSize(size: int)    // ValueError from read_csv: chunksize must be >= 1
    | TooManyFields                  // ParserError from read_csv: a line has more fields than there are names

  /** The texts read_csv takes for NA by default (its na_values), the empty text included. */
  const NaTokens: set<string> :=
    {"", "#N/A", "#N/A N/A", "#NA", "-1.#IND", "-1.#QNAN", "-NaN", "-nan", "1.#IND", "1.#QNAN",
     "<NA>", "N/A", "NA", "NULL", "NaN", "None", "n/a", "nan", "null"}

  /** A field as read_csv reads it: empty or an NA token is missing, any other text is kept. */
  function FieldCell(f: Option<string>): (c: Cell)
    ensures IsRaw(c)
    ensures c.Missing? <==> f.None? || f.value in NaTokens
    ensures c.Text? ==> c.text == f.value
  {
    match f
    case None => Missing
    case Some(s) => if s in NaTokens then Missing else Text(s)
  }

  /** A blank line, which read_csv skips (skip_blank_lines): nothing, or spaces and tabs only. */
  predicate IsBlank(line: Line)
  {
    || line == []
    || (|line| == 1 && (line[0].None? || forall k :: 0 <= k < |line[0].value| ==> line[0].value[k] in " \t"))
  }

  /** The lines read_csv turns into rows, in file order. */
  function NonBlank(lines: seq<Line>): (r: seq<Line>)
    ensures |r| <= |lines|
    ensures forall x :: x in r <==> x in lines && !IsBlank(x)
    ensures forall x :: multiset(r)[x] == (if IsBlank(x) then 0 else multiset(lines)[x])
    decreases |lines|
  {
    if lines == [] then []
    else
      assert lines == [lines[0]] + lines[1..];
      (if IsBlank(lines[0]) then [] else [lines[0]]) + NonBlank(lines[1..])
  }

  /** Dropping blank lines commutes with joining files: it works line by line. */
  lemma {:induction false} NonBlankConcat(a: seq<Line>, b: seq<Line>)
    ensures NonBlank(a + b) == NonBlank(a) + NonBlank(b)
    decreases |a|
  {
    if a == [] {
      assert a + b == b;
    } else {
      assert (a + b)[0] == a[0];
      assert (a + b)[1..] == a[1..] + b;
      NonBlankConcat(a[1..], b);
    }
  }

  /** No line has more fields than there are column names. */
  predicate FitsColumns(lines: seq<Line>, n: nat)
  {
    forall i :: 0 <= i < |lines| ==> |lines[i]| <= n
  }

  /**
   * The fields of a line under n positional column names: each field read
   * as read_csv reads it, and a short line padded with missing fields.
   */
  function NameFields(line: Line, n: nat): (r: Row)
    ensures |r| == n
    ensures forall k :: 0 <= k < n ==> IsRaw(r[k])
    ensures forall k :: 0 <= k < n && k < |line| ==> (r[k].Missing? <==> line[k].None? || line[k].value in NaTokens)
    ensures forall k :: 0 <= k < n && k < |line| && r[k].Text? ==> r[k].text == line[k].value
    ensures forall k :: |line| <= k < n ==> r[k] == Missing
  {
    seq(n, k requires 0 <= k < n => if k < |line| then FieldCell(line[k]) else Missing)
  }

  function NamedRows(lines: seq<Line>, n: nat): (rows: seq<Row>)
    ensures |rows| == |lines|
  {
    seq(|lines|, i requires 0 <= i < |lines| => NameFields(lines[i], n))
  }

  /** All rows of a sequence of batches, batch after batch. */
  function AllRows(batches: seq<Table>): seq<Row>
  {
    if batches == [] then [] else batches[0].rows + AllRows(batches[1..])
  }

  /**
   * Consecutive batches of `size` rows under the given columns; only the last
   * may be shorter, and no batch is empty.
   */
  function Batches(rows: seq<Row>, columns: seq<string>, size: nat): (r: seq<Table>)
    requires size >= 1
    ensures AllRows(r) == rows
    ensures forall i :: 0 <= i < |r| ==> r[i].columns == columns && 1 <= |r[i].rows| <= size
    ensures forall i :: 0 <= i < |r| - 1 ==> |r[i].rows| == size
    ensures |r| * size >= |rows| > (|r| - 1) * size
    decreases |rows|
  {
    if rows == [] then []
    else if |rows| <= size then [Table(columns, rows)]
    else
      var rest := Batches(rows[size..], columns, size);
      assert rows == rows[..size] + rows[size..];
      [Table(columns, rows[..size])] + rest
  }

  /**
   * pd.read_csv(file, chunksize=chunk_size, names=columns) for a known
   * table; an unknown table fails at the registry lookup, before the file is
   * touched, and a line longer than the columns fails the reading. Blank
   * lines give no row.
   */
  function LoadCsvData(lines: seq<Line>, chunkSize: int, table: string): (r: Result<seq<Table>, LoadError>)
    ensures !Registry.IsKnownTable(table) ==> r == Failure(UnknownTable(table))
    ensures Registry.IsKnownTable(table) && chunkSize < 1 ==> r == Failure(InvalidChunkSize(chunkSize))
    ensures Registry.IsKnownTable(table) && chunkSize >= 1 && !FitsColumns(lines, |Registry.Columns(table).value|) ==>
      r == Failure(TooManyFields)
    ensures Registry.IsKnownTable(table) && chunkSize >= 1 && FitsColumns(lines, |Registry.Columns(table).value|) ==>
      r.Success?
    ensures r.Success? ==> AllRows(r.value) == NamedRows(NonBlank(lines), |Registry.Columns(table).value|)
    ensures r.Success? ==> forall i :: 0 <= i < |r.value| ==>
      && r.value[i].columns == Registry.Columns(table).value
      && WellFormed(r.value[i])
      && RawRows(r.value[i].rows)
      && 1 <= |r.value[i].rows| <= chunkSize
    ensures r.Success? ==> forall i :: 0 <= i < |r.value| - 1 ==> |r.value[i].rows| == chunkSize
    ensures r.Success? ==> (|r.value| == 0 <==> NonBlank(lines) == [])
  {
    match Registry.Columns(table)
    case None => Failure(UnknownTable(table))
    case Some(columns) =>
      if chunkSize < 1 then Failure(InvalidChunkSize(chunkSize))
      else if !FitsColumns(lines, |columns|) then Failure(TooManyFields)
      else
        var rows := NamedRows(NonBlank(lines), |columns|);
        var batches := Batches(rows, columns, chunkSize);
        LoadedBatchesRaw(NonBlank(lines), columns, chunkSize, rows);
        Success(batches)
  }

  /**
   * The upload form turns away only sizes above MaxChunkSize: of the sizes it
   * lets through, read_csv takes exactly those from 1 up, including the
   * default, and fails on the rest.
   */
  lemma FormChunkSizes(lines: seq<Line>, size: int, table: string)
    requires Registry.IsKnownTable(table) && FitsColumns(lines, |Registry.Columns(table).value|)
    requires size <= Registry.MaxChunkSize
    ensures LoadCsvData(lines, size, table).Success? <==> 1 <= size
    ensures size < 1 ==> LoadCsvData(lines, size, table) == Failure(InvalidChunkSize(size))
    ensures LoadCsvData(lines, Registry.ChunkSize, table).Success?
    ensures LoadCsvData(lines, size, table).Success? ==>
      forall i :: 0 <= i < |LoadCsvData(lines, size, table).value| ==>
        |LoadCsvData(lines, size, table).value[i].rows| <= Registry.MaxChunkSize
  {
  }

  /** Every batch of the file's rows has one raw field per column in each row. */
  lemma LoadedBatchesRaw(lines: seq<Line>, columns: seq<string>, size: nat, rows: seq<Row>)
    requires size >= 1 && rows == NamedRows(lines, |columns|)
    ensures forall i :: 0 <= i < |Batches(rows, columns, size)| ==>
      WellFormed(Batches(rows, columns, size)[i]) && RawRows(Batches(rows, columns, size)[i].rows)
  {
    var batches := Batches(rows, columns, size);
    BatchRowsFrom(rows, columns, size);
    forall i, x | 0 <= i < |batches| && x in batches[i].rows
      ensures |x| == |columns| && forall k :: 0 <= k < |x| ==> IsRaw(x[k])
    {
      assert x in rows;
      var l :| 0 <= l < |rows| && rows[l] == x;
    }
  }

  /** Every row of every batch is one of the rows batched. */
  lemma {:induction false} BatchRowsFrom(rows: seq<Row>, columns: seq<string>, size: nat)
    requires size >= 1
    ensures forall i, x :: 0 <= i < |Batches(rows, columns, size)| && x in Batches(rows, columns, size)[i].rows ==> x in rows
    decreases |rows|
  {
    if |rows| > size {
      BatchRowsFrom(rows[size..], columns, size);
      var b := Batches(rows, columns, size);
      forall i, x | 0 <= i < |b| && x in b[i].rows
        ensures x in rows
      {
        if i > 0 {
          assert x in rows[size..];
        }
      }
    }
  }

  /** Every field of these rows is raw text or missing: nothing is converted yet. */
  predicate RawRows(rows: seq<Row>)
  {
    forall i, k :: 0 <= i < |rows| && 0 <= k < |rows[i]| ==> IsRaw(rows[i][k])
  }

  /**
   * Each field of a loaded row is the field at that position of the
   * corresponding non-blank line, read as read_csv reads it, or missing past
   * the end of a short line.
   */
  lemma LoadedFields(lines: seq<Line>, n: nat, i: nat, k: nat)
    requires i < |NonBlank(lines)| && k < n
    ensures !IsBlank(NonBlank(lines)[i]) && NonBlank(lines)[i] in lines
    ensures k < |NonBlank(lines)[i]| ==> NamedRows(NonBlank(lines), n)[i][k] == FieldCell(NonBlank(lines)[i][k])
    ensures k >= |NonBlank(lines)[i]| ==> NamedRows(NonBlank(lines), n)[i][k] == Missing
  {
    assert NonBlank(lines)[i] in NonBlank(lines);
  }
}
