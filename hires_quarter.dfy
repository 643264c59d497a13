/**
 * req001.hires_quarter: the number of distinct employees hired per
 * (department, job) in each calendar quarter of one year, one row per
 * (department, job) pair hired in that year, all four quarters as columns.
 */
module HiresQuarter {
  import opened Dates
  import opened Models
  import opened ReportData

  /** The pivot index of a hire: (department_id, job_id). */
  type Key = (int, int)

  function HireKey(h: HiredEmployee): Key { (h.departmentId, h.jobId) }

  /** The order sort_values(['department_id', 'job_id']) gives. */
  predicate KeyLess(a: Key, b: Key) { a.0 < b.0 || (a.0 == b.0 && a.1 < b.1) }

  predicate StrictlySorted(ks: seq<Key>) { forall i, j :: 0 <= i < j < |ks| ==> KeyLess(ks[i], ks[j]) }

  /** The key joins an ordered key list in its place, unless already there. */
  function InsertKey(ks: seq<Key>, k: Key): (r: seq<Key>)
    requires StrictlySorted(ks)
    ensures StrictlySorted(r)
    ensures forall x :: x in r <==> x in ks || x == k
    decreases |ks|
  {
    if ks == [] then [k]
    else if ks[0] == k then ks
    else if KeyLess(k, ks[0]) then [k] + ks
    else
      var rest := InsertKey(ks[1..], k);
      assert forall x :: x in rest ==> KeyLess(ks[0], x);
      [ks[0]] + rest
  }

  /** A hire in the year carries this key. */
  predicate HiredWithKey(hs: seq<HiredEmployee>, year: int, k: Key)
  {
    exists i :: 0 <= i < |hs| && InYear(hs[i], year) && HireKey(hs[i]) == k
  }

  /** The groupby keys of the year's hires, in ascending order: the rows of the pivot table. */
  function YearKeys(hs: seq<HiredEmployee>, year: int): (ks: seq<Key>)
    ensures StrictlySorted(ks)
    ensures forall k :: k in ks <==> HiredWithKey(hs, year, k)
    decreases |hs|
  {
    if hs == [] then []
    else
      var init, last := hs[..|hs| - 1], hs[|hs| - 1];
      var ks := YearKeys(init, year);
      assert forall i :: 0 <= i < |init| ==> init[i] == hs[i];
      assert forall k :: HiredWithKey(init, year, k) ==> HiredWithKey(hs, year, k);
      if InYear(last, year) then InsertKey(ks, HireKey(last)) else ks
  }

  /** Some hire of the year falls in quarter q. */
  predicate HiredInQuarter(hs: seq<HiredEmployee>, year: int, q: int)
    requires MonthsValid(hs)
  {
    exists i :: 0 <= i < |hs| && InYear(hs[i], year) && Quarter(hs[i].datetime) == q
  }

  /** A group of groupby(['department_id', 'job_id', 'quarter']): a key and a quarter. */
  type Group = (Key, int)

  /** Whether the hire is one of the year's hires in this group. */
  predicate InGroup(h: HiredEmployee, year: int, k: Key, q: int)
    requires 1 <= h.datetime.month <= 12
  {
    InYear(h, year) && HireKey(h) == k && Quarter(h.datetime) == q
  }

  /** The employee ids of the year's hires with this key in quarter q. */
  function QuarterIds(hs: seq<HiredEmployee>, year: int, k: Key, q: int): set<int>
    requires MonthsValid(hs)
  {
    set i | 0 <= i < |hs| && InGroup(hs[i], year, k, q) :: hs[i].id
  }

  /** nunique of employee_id over the year's hires with this key in quarter q. */
  function DistinctHires(hs: seq<HiredEmployee>, year: int, k: Key, q: int): nat
    requires MonthsValid(hs)
  {
    |QuarterIds(hs, year, k, q)|
  }

  /** The quarter columns pivot_table creates: those some hire of the year falls in, ascending. */
  function PresentQuarters(hs: seq<HiredEmployee>, year: int): (qs: seq<int>)
    requires MonthsValid(hs)
    ensures Increasing(qs)
    ensures forall q :: q in qs <==> 1 <= q <= 4 && HiredInQuarter(hs, year, q)
  {
    forall i | 0 <= i < |hs| ensures 1 <= Quarter(hs[i].datetime) <= 4 { }
    (if HiredInQuarter(hs, year, 1) then [1] else []) + (if HiredInQuarter(hs, year, 2) then [2] else [])
      + (if HiredInQuarter(hs, year, 3) then [3] else []) + (if HiredInQuarter(hs, year, 4) then [4] else [])
  }

  /** A table with a row per key and a column per listed quarter. */
  datatype QuarterTable = QuarterTable(keys: seq<Key>, quarters: seq<int>, cells: seq<seq<nat>>)

  /** Every cell is the distinct-hire count of its row's key in its column's quarter. */
  predicate Counts(hs: seq<HiredEmployee>, year: int, t: QuarterTable)
    requires MonthsValid(hs)
  {
    && |t.cells| == |t.keys|
    && (forall r :: 0 <= r < |t.cells| ==> |t.cells[r]| == |t.quarters|)
    && (forall r, c :: 0 <= r < |t.cells| && 0 <= c < |t.quarters| ==>
          t.cells[r][c] == DistinctHires(hs, year, t.keys[r], t.quarters[c]))
  }

  /**
   * groupby(['department_id', 'job_id', 'quarter'])['employee_id'] over the
   * year's hires: the employee ids of each group, gathered one hire at a time.
   */
  function GroupIds(hs: seq<HiredEmployee>, year: int): map<Group, set<int>>
    requires MonthsValid(hs)
    decreases |hs|
  {
    if hs == [] then map[]
    else
      var init, h := hs[..|hs| - 1], hs[|hs| - 1];
      assert forall i :: 0 <= i < |init| ==> init[i] == hs[i];
      var g := GroupIds(init, year);
      if InYear(h, year) then
        var key := (HireKey(h), Quarter(h.datetime));
        g[key := (if key in g then g[key] else {}) + {h.id}]
      else g
  }

  /** The ids of a prefix, and of the last hire when it is in the group, make up the group's ids. */
  lemma QuarterIdsSnoc(hs: seq<HiredEmployee>, year: int, k: Key, q: int)
    requires MonthsValid(hs) && hs != []
    ensures MonthsValid(hs[..|hs| - 1])
    ensures QuarterIds(hs, year, k, q) == QuarterIds(hs[..|hs| - 1], year, k, q)
      + (if InGroup(hs[|hs| - 1], year, k, q) then {hs[|hs| - 1].id} else {})
  {
    var init, n := hs[..|hs| - 1], |hs| - 1;
    assert forall i :: 0 <= i < |init| ==> init[i] == hs[i];
    var right := QuarterIds(init, year, k, q) + (if InGroup(hs[n], year, k, q) then {hs[n].id} else {});
    forall x | x in QuarterIds(hs, year, k, q)
      ensures x in right
    {
      var i :| 0 <= i < |hs| && InGroup(hs[i], year, k, q) && hs[i].id == x;
      if i < n {
        assert x in QuarterIds(init, year, k, q);
      }
    }
    forall x | x in QuarterIds(init, year, k, q)
      ensures x in QuarterIds(hs, year, k, q)
    {
      var i :| 0 <= i < |init| && InGroup(init[i], year, k, q) && init[i].id == x;
      assert hs[i] == init[i];
    }
  }

  /** The gathered groups hold exactly the ids of the year's hires in them; a group never formed has none. */
  lemma {:induction false} GroupIdsAreQuarterIds(hs: seq<HiredEmployee>, year: int, k: Key, q: int)
    requires MonthsValid(hs)
    ensures (k, q) in GroupIds(hs, year) ==> GroupIds(hs, year)[(k, q)] == QuarterIds(hs, year, k, q)
    ensures (k, q) !in GroupIds(hs, year) ==> QuarterIds(hs, year, k, q) == {}
    decreases |hs|
  {
    if hs != [] {
      QuarterIdsSnoc(hs, year, k, q);
      GroupIdsAreQuarterIds(hs[..|hs| - 1], year, k, q);
    }
  }

  /** .nunique() of a group, read by pivot_table with fill_value=0 where the group was never formed. */
  function GroupCount(g: map<Group, set<int>>, k: Key, q: int): nat
  {
    if (k, q) in g then |g[(k, q)]| else 0
  }

  /**
   * groupby(...).nunique() followed by pivot_table(fill_value=0): rows for the
   * year's keys, columns for the quarters present, each cell its group's count.
   */
  function Pivot(hs: seq<HiredEmployee>, year: int): (t: QuarterTable)
    requires MonthsValid(hs)
    ensures t.keys == YearKeys(hs, year) && t.quarters == PresentQuarters(hs, year)
    ensures Counts(hs, year, t)
  {
    var g := GroupIds(hs, year);
    var ks, qs := YearKeys(hs, year), PresentQuarters(hs, year);
    var t := QuarterTable(ks, qs, seq(|ks|, r requires 0 <= r < |ks| =>
      seq(|qs|, c requires 0 <= c < |qs| => GroupCount(g, ks[r], qs[c]))));
    PivotCounts(hs, year, t);
    t
  }

  lemma PivotCounts(hs: seq<HiredEmployee>, year: int, t: QuarterTable)
    requires MonthsValid(hs)
    requires |t.cells| == |t.keys| && forall r :: 0 <= r < |t.cells| ==> |t.cells[r]| == |t.quarters|
    requires forall r, c :: 0 <= r < |t.cells| && 0 <= c < |t.quarters| ==>
      t.cells[r][c] == GroupCount(GroupIds(hs, year), t.keys[r], t.quarters[c])
    ensures Counts(hs, year, t)
  {
    forall r, c | 0 <= r < |t.cells| && 0 <= c < |t.quarters|
      ensures t.cells[r][c] == DistinctHires(hs, year, t.keys[r], t.quarters[c])
    {
      GroupIdsAreQuarterIds(hs, year, t.keys[r], t.quarters[c]);
    }
  }

  /** A quarter no hire of the year falls in counts nobody, for every key. */
  lemma AbsentQuarterIsZero(hs: seq<HiredEmployee>, year: int, q: int)
    requires MonthsValid(hs) && !HiredInQuarter(hs, year, q)
    ensures forall k :: DistinctHires(hs, year, k, q) == 0
  {
  }

  function PositionOf(qs: seq<int>, q: int): (p: nat)
    requires q in qs
    ensures p < |qs| && qs[p] == q
  {
    if qs[0] == q then 0 else 1 + PositionOf(qs[1..], q)
  }

  /** hires_df[q] = 0: a new last column of zeros for a quarter nobody was hired in. */
  function WithZeroColumn(hs: seq<HiredEmployee>, year: int, t: QuarterTable, q: int): (r: QuarterTable)
    requires MonthsValid(hs) && Counts(hs, year, t) && !HiredInQuarter(hs, year, q)
    ensures r.keys == t.keys && r.quarters == t.quarters + [q]
    ensures Counts(hs, year, r)
  {
    AbsentQuarterIsZero(hs, year, q);
    QuarterTable(t.keys, t.quarters + [q], seq(|t.cells|, r requires 0 <= r < |t.cells| => t.cells[r] + [0]))
  }

  /** The columns of t at positions ps, in that order, as the quarters qs. */
  function Selected(t: QuarterTable, ps: seq<nat>, qs: seq<int>): QuarterTable
    requires |ps| == |qs| && forall c :: 0 <= c < |ps| ==> ps[c] < |t.quarters|
    requires forall r :: 0 <= r < |t.cells| ==> |t.cells[r]| == |t.quarters|
  {
    QuarterTable(t.keys, qs, seq(|t.cells|, r requires 0 <= r < |t.cells| =>
      seq(|ps|, c requires 0 <= c < |ps| => t.cells[r][ps[c]])))
  }

  /** Selecting columns by position keeps every count, provided each column keeps its quarter label. */
  lemma SelectedCounts(hs: seq<HiredEmployee>, year: int, t: QuarterTable, ps: seq<nat>, qs: seq<int>)
    requires MonthsValid(hs) && Counts(hs, year, t)
    requires |ps| == |qs| && forall c :: 0 <= c < |ps| ==> ps[c] < |t.quarters| && t.quarters[ps[c]] == qs[c]
    ensures Counts(hs, year, Selected(t, ps, qs))
  {
  }

  /** hires_df[other_cols + sorted(quarter_cols)]: the quarter columns in order 1, 2, 3, 4. */
  function InQuarterOrder(hs: seq<HiredEmployee>, year: int, t: QuarterTable): (r: QuarterTable)
    requires MonthsValid(hs) && Counts(hs, year, t)
    requires forall q :: 1 <= q <= 4 ==> q in t.quarters
    ensures r.keys == t.keys && r.quarters == [1, 2, 3, 4]
    ensures Counts(hs, year, r)
  {
    var ps := [PositionOf(t.quarters, 1), PositionOf(t.quarters, 2), PositionOf(t.quarters, 3), PositionOf(t.quarters, 4)];
    SelectedCounts(hs, year, t, ps, [1, 2, 3, 4]);
    Selected(t, ps, [1, 2, 3, 4])
  }

  /**
   * hires_quarter: pivot the year's hires, add each missing quarter column
   * filled with 0, put the quarter columns in order 1..4, and sort the rows
   * by (department_id, job_id), which the pivot's index already is.
   */
  method HiresQuarter(hs: seq<HiredEmployee>, year: int) returns (t: QuarterTable)
    requires MonthsValid(hs)
    ensures t.keys == YearKeys(hs, year) && t.quarters == [1, 2, 3, 4]
    ensures Counts(hs, year, t)
  {
    var p := Pivot(hs, year);
    var hiresDf := p;
    for q := 1 to 5
      invariant hiresDf.keys == p.keys && Counts(hs, year, hiresDf)
      invariant forall x :: x in p.quarters ==> x in hiresDf.quarters
      invariant forall x :: 1 <= x < q ==> x in hiresDf.quarters
    {
      if q !in hiresDf.quarters {
        hiresDf := WithZeroColumn(hs, year, hiresDf, q);
      }
    }
    t := InQuarterOrder(hs, year, hiresDf);
  }

  /** A hire outside the year changes no count. */
  lemma OtherYearsDoNotCount(hs: seq<HiredEmployee>, year: int, h: HiredEmployee, k: Key, q: int)
    requires MonthsValid(hs + [h]) && !InYear(h, year)
    ensures MonthsValid(hs) && DistinctHires(hs + [h], year, k, q) == DistinctHires(hs, year, k, q)
  {
    var all := hs + [h];
    assert forall i :: 0 <= i < |hs| ==> all[i] == hs[i];
    assert QuarterIds(all, year, k, q) == QuarterIds(hs, year, k, q);
  }

  /** The same employee hired twice under one key in one quarter counts once. */
  lemma RepeatedEmployeeCountsOnce(hs: seq<HiredEmployee>, year: int, i: nat, j: nat)
    requires MonthsValid(hs) && i < |hs| && j < |hs| && hs[i].id == hs[j].id
    requires HireKey(hs[i]) == HireKey(hs[j]) && Quarter(hs[i].datetime) == Quarter(hs[j].datetime)
    requires InYear(hs[i], year) && InYear(hs[j], year)
    ensures var all := hs + [hs[j]];
      MonthsValid(all) && DistinctHires(all, year, HireKey(hs[i]), Quarter(hs[i].datetime))
        == DistinctHires(hs, year, HireKey(hs[i]), Quarter(hs[i].datetime))
  {
    var all := hs + [hs[j]];
    var k, q := HireKey(hs[i]), Quarter(hs[i].datetime);
    assert forall m :: 0 <= m < |hs| ==> all[m] == hs[m];
    assert QuarterIds(all, year, k, q) == QuarterIds(hs, year, k, q) by {
      assert all[|hs|] == hs[j];
    }
  }
}
