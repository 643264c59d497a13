/**
 * The slice of a pandas DataFrame that the import works with: named columns
 * and rows of fields. A `Table` is a detached value (a copy, a filtered
 * selection); a `DataFrame` is the object the validators change in place.
 */
module Frames {
  import opened Cells

  type Row = seq<Cell>

  datatype Table = Table(columns: seq<string>, rows: seq<Row>)

  /** Every row has one field per column. */
  predicate WellFormed(t: Table) { forall i :: 0 <= i < |t.rows| ==> |t.rows[i]| == |t.columns| }

  /** Position of a column label (the first, should it repeat). */
  function IndexOf(xs: seq<string>, x: string): (k: nat)
    requires x in xs
    ensures k < |xs| && xs[k] == x
    ensures forall j :: 0 <= j < k ==> xs[j] != x
  {
    if xs[0] == x then 0 else 1 + IndexOf(xs[1..], x)
  }

  function IndicesOf(xs: seq<string>, names: seq<string>): (idx: seq<nat>)
    requires forall j :: 0 <= j < |names| ==> names[j] in xs
    ensures |idx| == |names|
    ensures forall j :: 0 <= j < |names| ==> idx[j] < |xs| && xs[idx[j]] == names[j]
  {
    seq(|names|, j requires 0 <= j < |names| => IndexOf(xs, names[j]))
  }

  /** isnull().any(axis=1) for one row. */
  predicate HasMissing(r: Row) { exists k :: 0 <= k < |r| && r[k].Missing? }

  /** The row has a value in every listed column (it survives dropna on them). */
  predicate CompleteOn(r: Row, idx: seq<nat>)
  {
    forall j :: 0 <= j < |idx| ==> idx[j] < |r| && !r[idx[j]].Missing?
  }

  /** The rows with at least one missing field, in their original order. */
  function RowsWithMissing(rows: seq<Row>): (r: seq<Row>)
    ensures |r| <= |rows|
    ensures forall x :: x in r ==> x in rows && HasMissing(x)
    ensures forall x :: x in rows && HasMissing(x) ==> x in r
    decreases |rows|
  {
    if rows == [] then []
    else
      var last := rows[|rows| - 1];
      RowsWithMissing(rows[..|rows| - 1]) + (if HasMissing(last) then [last] else [])
  }

  /** The rows with a value in every listed column, in their original order. */
  function RowsCompleteOn(rows: seq<Row>, idx: seq<nat>): (r: seq<Row>)
    ensures |r| <= |rows|
    ensures forall x :: x in r ==> x in rows && CompleteOn(x, idx)
    ensures forall x :: x in rows && CompleteOn(x, idx) ==> x in r
    decreases |rows|
  {
    if rows == [] then []
    else
      var last := rows[|rows| - 1];
      RowsCompleteOn(rows[..|rows| - 1], idx) + (if CompleteOn(last, idx) then [last] else [])
  }

  /** rows is an order-preserving interleaving of a and b: each row lands in exactly one of them. */
  ghost predicate IsMerge(rows: seq<Row>, a: seq<Row>, b: seq<Row>)
    decreases |rows|
  {
    if rows == [] then a == [] && b == []
    else
      var last, init := rows[|rows| - 1], rows[..|rows| - 1];
      || (|a| > 0 && a[|a| - 1] == last && IsMerge(init, a[..|a| - 1], b))
      || (|b| > 0 && b[|b| - 1] == last && IsMerge(init, a, b[..|b| - 1]))
  }

  /**
   * When "has a missing field" is exactly "lacks a required field", the
   * missing-rows selection and the dropna result split the rows between them.
   */
  lemma {:induction false} SplitIsMerge(rows: seq<Row>, idx: seq<nat>)
    requires forall i :: 0 <= i < |rows| ==> (HasMissing(rows[i]) <==> !CompleteOn(rows[i], idx))
    ensures IsMerge(rows, RowsCompleteOn(rows, idx), RowsWithMissing(rows))
    decreases |rows|
  {
    if rows != [] {
      var init := rows[..|rows| - 1];
      assert forall i :: 0 <= i < |init| ==> init[i] == rows[i];
      SplitIsMerge(init, idx);
      var a, b := RowsCompleteOn(rows, idx), RowsWithMissing(rows);
      if CompleteOn(rows[|rows| - 1], idx) {
        assert a[..|a| - 1] == RowsCompleteOn(init, idx);
        assert b == RowsWithMissing(init);
      } else {
        assert a == RowsCompleteOn(init, idx);
        assert b[..|b| - 1] == RowsWithMissing(init);
      }
    }
  }

  /** An interleaving keeps every row: counts add up, and no row is lost or duplicated. */
  lemma {:induction false} MergeCounts(rows: seq<Row>, a: seq<Row>, b: seq<Row>)
    requires IsMerge(rows, a, b)
    ensures |a| + |b| == |rows|
    ensures multiset(a) + multiset(b) == multiset(rows)
    decreases |rows|
  {
    if rows != [] {
      var last, init := rows[|rows| - 1], rows[..|rows| - 1];
      assert rows == init + [last];
      if |a| > 0 && a[|a| - 1] == last && IsMerge(init, a[..|a| - 1], b) {
        MergeCounts(init, a[..|a| - 1], b);
        assert a == a[..|a| - 1] + [last];
      } else {
        MergeCounts(init, a, b[..|b| - 1]);
        assert b == b[..|b| - 1] + [last];
      }
    }
  }

  /** fillna(v) applied to every field. */
  function Filled(rows: seq<Row>, v: Cell): seq<Row>
  {
    seq(|rows|, i requires 0 <= i < |rows| => seq(|rows[i]|, k requires 0 <= k < |rows[i]| => Fill(rows[i][k], v)))
  }

  /** Every row with the field at s also placed at position t (overwritten, or appended when t is one past the end). */
  function CopyInto(rows: seq<Row>, s: nat, t: nat): seq<Row>
    requires forall i :: 0 <= i < |rows| ==> s < |rows[i]| && t <= |rows[i]|
  {
    seq(|rows|, i requires 0 <= i < |rows| =>
      var r := rows[i]; if t < |r| then r[t := r[s]] else r + [r[s]])
  }

  /** Every row with the field at k coerced. */
  function CoercedColumn(rows: seq<Row>, k: nat, how: Coercion): seq<Row>
    requires forall i :: 0 <= i < |rows| ==> k < |rows[i]|
  {
    seq(|rows|, i requires 0 <= i < |rows| => rows[i][k := Coerce(how, rows[i][k])])
  }

  class DataFrame {
    var columns: seq<string>
    var rows: seq<Row>

    ghost predicate Valid()
      reads this
    {
      WellFormed(Table(columns, rows))
    }

    function Snapshot(): Table
      reads this
    {
      Table(columns, rows)
    }

    constructor (t: Table)
      requires WellFormed(t)
      ensures Valid() && columns == t.columns && rows == t.rows
    {
      columns := t.columns;
      rows := t.rows;
    }

    /** df.copy(): a detached value that later changes to the frame do not touch. */
    method Copy() returns (t: Table)
      ensures t.columns == columns && t.rows == rows
    {
      t := Table(columns, rows);
    }

    /** df[target] = df[source].copy(): overwrite target, or append it as a new last column. */
    method AssignColumnCopy(source: string, target: string)
      requires Valid() && source in columns
      modifies this
      ensures Valid()
      ensures target in old(columns) ==> columns == old(columns)
      ensures target !in old(columns) ==> columns == old(columns) + [target]
      ensures rows == CopyInto(old(rows), IndexOf(old(columns), source),
                               if target in old(columns) then IndexOf(old(columns), target) else |old(columns)|)
    {
      var s := IndexOf(columns, source);
      var t := if target in columns then IndexOf(columns, target) else |columns|;
      var out: seq<Row> := [];
      var i := 0;
      while i < |rows|
        invariant 0 <= i <= |rows| && |out| == i
        invariant forall j :: 0 <= j < i ==> out[j] == CopyInto(rows, s, t)[j]
      {
        var r := rows[i];
        out := out + [if t < |r| then r[t := r[s]] else r + [r[s]]];
        i := i + 1;
      }
      assert out == CopyInto(rows, s, t);
      if target !in columns {
        columns := columns + [target];
      }
      rows := out;
    }

    /** df[name] = pd.to_numeric(...) / pd.to_datetime(...) with errors='coerce'. */
    method CoerceColumn(name: string, how: Coercion)
      requires Valid() && name in columns
      modifies this
      ensures Valid() && columns == old(columns)
      ensures rows == CoercedColumn(old(rows), IndexOf(columns, name), how)
    {
      var k := IndexOf(columns, name);
      var out: seq<Row> := [];
      var i := 0;
      while i < |rows|
        invariant 0 <= i <= |rows| && |out| == i
        invariant forall j :: 0 <= j < i ==> out[j] == rows[j][k := Coerce(how, rows[j][k])]
      {
        out := out + [rows[i][k := Coerce(how, rows[i][k])]];
        i := i + 1;
      }
      assert out == CoercedColumn(rows, k, how);
      rows := out;
    }

    /** df[df.isnull().any(axis=1)]: a new frame holding the rows with a missing field. */
    method RowsWithAnyMissing() returns (t: Table)
      requires Valid()
      ensures t == Table(columns, RowsWithMissing(rows))
    {
      var out: seq<Row> := [];
      var i := 0;
      while i < |rows|
        invariant 0 <= i <= |rows|
        invariant out == RowsWithMissing(rows[..i])
      {
        assert rows[..i + 1][..i] == rows[..i];
        if HasMissing(rows[i]) {
          out := out + [rows[i]];
        }
        i := i + 1;
      }
      assert rows[..i] == rows;
      t := Table(columns, out);
    }

    /** df.dropna(subset=subset, inplace=True). */
    method DropMissing(subset: seq<string>)
      requires Valid() && forall j :: 0 <= j < |subset| ==> subset[j] in columns
      modifies this
      ensures Valid() && columns == old(columns)
      ensures rows == RowsCompleteOn(old(rows), IndicesOf(columns, subset))
    {
      var idx := IndicesOf(columns, subset);
      var out: seq<Row> := [];
      var i := 0;
      while i < |rows|
        invariant 0 <= i <= |rows|
        invariant out == RowsCompleteOn(rows[..i], idx)
      {
        assert rows[..i + 1][..i] == rows[..i];
        if CompleteOn(rows[i], idx) {
          out := out + [rows[i]];
        }
        i := i + 1;
      }
      assert rows[..i] == rows;
      forall j | 0 <= j < |out|
        ensures |out[j]| == |columns|
      {
        assert out[j] in rows;
      }
      rows := out;
    }

    /** df.fillna(v, inplace=True). */
    method FillMissing(v: Cell)
      requires Valid()
      modifies this
      ensures Valid() && columns == old(columns)
      ensures rows == Filled(old(rows), v)
    {
      var out: seq<Row> := [];
      var i := 0;
      while i < |rows|
        invariant 0 <= i <= |rows| && |out| == i
        invariant forall j :: 0 <= j < i ==> |out[j]| == |columns| && out[j] == Filled(rows, v)[j]
      {
        var r := rows[i];
        var filled: Row := [];
        var k := 0;
        while k < |r|
          invariant 0 <= k <= |r| && |filled| == k
          invariant forall m :: 0 <= m < k ==> filled[m] == Fill(r[m], v)
        {
          filled := filled + [Fill(r[k], v)];
          k := k + 1;
        }
        out := out + [filled];
        i := i + 1;
      }
      rows := out;
    }
  }
}
