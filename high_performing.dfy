/**
 * req002.high_performing_departments: the departments that hired more
 * employees in one year than the mean over the departments that hired in
 * that year, with their names, most hires first.
 */
module HighPerforming {
  import opened Wrappers
  import opened Models
  import opened ReportData

  /** The department id joins an ascending id list in its place, unless already there. */
  function InsertId(ds: seq<int>, d: int): (r: seq<int>)
    requires Increasing(ds)
    ensures Increasing(r)
    ensures forall x :: x in r <==> x in ds || x == d
    decreases |ds|
  {
    if ds == [] then [d]
    else if ds[0] == d then ds
    else if d < ds[0] then [d] + ds
    else
      var rest := InsertId(ds[1..], d);
      assert forall x :: x in rest ==> ds[0] < x;
      var r := [ds[0]] + rest;
      assert Increasing(r) by {
        forall i, j | 0 <= i < j < |r|
          ensures r[i] < r[j]
        {
          assert r[j] == rest[j - 1];
          if i > 0 {
            assert r[i] == rest[i - 1];
          } else {
            assert r[j] in rest;
          }
        }
      }
      r
  }

  /** Some hire of the year belongs to department d. */
  predicate HiredInYear(hs: seq<HiredEmployee>, year: int, d: int)
  {
    exists i :: 0 <= i < |hs| && InYear(hs[i], year) && hs[i].departmentId == d
  }

  /** groupby('department_id') keys over the year's hires, ascending. */
  function YearDepartments(hs: seq<HiredEmployee>, year: int): (ds: seq<int>)
    ensures Increasing(ds)
    ensures forall d :: d in ds <==> HiredInYear(hs, year, d)
    decreases |hs|
  {
    if hs == [] then []
    else
      var init, last := hs[..|hs| - 1], hs[|hs| - 1];
      assert forall i :: 0 <= i < |init| ==> init[i] == hs[i];
      var ds := YearDepartments(init, year);
      if InYear(last, year) then InsertId(ds, last.departmentId) else ds
  }

  /** The number of the year's hire rows with this department: groupby(...).size(). */
  function HiredIn(hs: seq<HiredEmployee>, year: int, d: int): nat
    decreases |hs|
  {
    if hs == [] then 0
    else
      var last := hs[|hs| - 1];
      HiredIn(hs[..|hs| - 1], year, d) + (if InYear(last, year) && last.departmentId == d then 1 else 0)
  }

  /** The positions of the year's hire rows with this department. */
  function HireRows(hs: seq<HiredEmployee>, year: int, d: int): set<int>
  {
    set i | 0 <= i < |hs| && InYear(hs[i], year) && hs[i].departmentId == d
  }

  /** hired counts every row of the department in the year, once. */
  lemma {:induction false} HiredInCountsRows(hs: seq<HiredEmployee>, year: int, d: int)
    ensures HiredIn(hs, year, d) == |HireRows(hs, year, d)|
    decreases |hs|
  {
    if hs != [] {
      var init, n := hs[..|hs| - 1], |hs| - 1;
      HiredInCountsRows(init, year, d);
      assert forall i :: 0 <= i < |init| ==> init[i] == hs[i];
      if InYear(hs[n], year) && hs[n].departmentId == d {
        assert HireRows(hs, year, d) == HireRows(init, year, d) + {n};
      } else {
        assert HireRows(hs, year, d) == HireRows(init, year, d);
      }
    }
  }

  /** The number of the year's hire rows. */
  function YearHires(hs: seq<HiredEmployee>, year: int): nat
    decreases |hs|
  {
    if hs == [] then 0
    else YearHires(hs[..|hs| - 1], year) + (if InYear(hs[|hs| - 1], year) then 1 else 0)
  }

  /** A row of hires_per_department. */
  datatype DeptCount = DeptCount(departmentId: int, hired: nat)

  function CountsFor(hs: seq<HiredEmployee>, year: int, ds: seq<int>): (r: seq<DeptCount>)
    ensures |r| == |ds|
    ensures forall i :: 0 <= i < |ds| ==> r[i] == DeptCount(ds[i], HiredIn(hs, year, ds[i]))
  {
    if ds == [] then [] else [DeptCount(ds[0], HiredIn(hs, year, ds[0]))] + CountsFor(hs, year, ds[1..])
  }

  /**
   * hires_per_department: one row per department hired in the year,
   * ascending by department, with its number of hires, which is never 0.
   */
  function HiresPerDepartment(hs: seq<HiredEmployee>, year: int): (r: seq<DeptCount>)
    ensures forall i :: 0 <= i < |r| ==> HiredInYear(hs, year, r[i].departmentId)
    ensures forall d :: HiredInYear(hs, year, d) ==> exists i :: 0 <= i < |r| && r[i].departmentId == d
    ensures forall i, j :: 0 <= i < j < |r| ==> r[i].departmentId < r[j].departmentId
    ensures forall i :: 0 <= i < |r| ==> r[i].hired == |HireRows(hs, year, r[i].departmentId)| >= 1
  {
    var ds := YearDepartments(hs, year);
    HiredDepartmentsCounted(hs, year, ds);
    CountsFor(hs, year, ds)
  }

  /** A department some hire of the year belongs to has at least that hire's row counted. */
  lemma HiredDepartmentsCounted(hs: seq<HiredEmployee>, year: int, ds: seq<int>)
    requires ds == YearDepartments(hs, year)
    ensures forall i :: 0 <= i < |ds| ==> HiredIn(hs, year, ds[i]) == |HireRows(hs, year, ds[i])| >= 1
  {
    forall i | 0 <= i < |ds|
      ensures HiredIn(hs, year, ds[i]) == |HireRows(hs, year, ds[i])| >= 1
    {
      assert ds[i] in ds;
      var j :| 0 <= j < |hs| && InYear(hs[j], year) && hs[j].departmentId == ds[i];
      assert j in HireRows(hs, year, ds[i]);
      HiredInCountsRows(hs, year, ds[i]);
    }
  }

  function Total(cs: seq<DeptCount>): nat
  {
    if cs == [] then 0 else cs[0].hired + Total(cs[1..])
  }

  /**
   * hired > mean, over n departments with the given total: written as
   * hired * n > total, which is the same test for n >= 1 without division.
   */
  predicate AboveMean(c: DeptCount, n: nat, total: nat) { c.hired * n > total }

  /** The rows of cs above the mean of all cs, in order. */
  function Above(cs: seq<DeptCount>, n: nat, total: nat): (r: seq<DeptCount>)
    ensures forall c :: c in r <==> c in cs && AboveMean(c, n, total)
    ensures multiset(r) <= multiset(cs)
    decreases |cs|
  {
    if cs == [] then []
    else
      var init, last := cs[..|cs| - 1], cs[|cs| - 1];
      assert cs == init + [last];
      Above(init, n, total) + (if AboveMean(last, n, total) then [last] else [])
  }

  /**
   * high_performing: the rows of hires_per_department whose count is above
   * the mean, that is above the year's hires shared out over the departments.
   */
  function HighPerformers(hs: seq<HiredEmployee>, year: int): (r: seq<DeptCount>)
    ensures forall c :: c in r <==>
      c in HiresPerDepartment(hs, year) && c.hired * |HiresPerDepartment(hs, year)| > YearHires(hs, year)
  {
    var cs := HiresPerDepartment(hs, year);
    TotalIsYearHires(hs, year);
    Above(cs, |cs|, Total(cs))
  }

  /** A row of the result: id and department from the left join, and hired. */
  datatype DeptRow = DeptRow(id: Option<int>, department: Option<string>, hired: nat)

  /** pd.merge(..., how='left') on department_id = id: a department without a row gets empty fields. */
  function JoinRow(departments: map<int, Department>, c: DeptCount): DeptRow
  {
    if c.departmentId in departments then
      DeptRow(Some(departments[c.departmentId].id), Some(departments[c.departmentId].department), c.hired)
    else DeptRow(None, None, c.hired)
  }

  /**
   * pd.merge(high_performing, departments_df, ..., how='left'): one row per
   * count, in the counts' order and keeping hired; a department the table
   * holds brings its id and name, any other gets empty fields.
   */
  function Joined(departments: map<int, Department>, cs: seq<DeptCount>): (r: seq<DeptRow>)
    ensures |r| == |cs|
    ensures forall i :: 0 <= i < |cs| ==> r[i].hired == cs[i].hired
    ensures forall i :: 0 <= i < |cs| ==> (r[i].department.Some? <==> cs[i].departmentId in departments)
    ensures forall i :: 0 <= i < |cs| && cs[i].departmentId in departments ==>
      r[i].id == Some(departments[cs[i].departmentId].id) &&
      r[i].department == Some(departments[cs[i].departmentId].department)
    ensures forall i :: 0 <= i < |cs| && cs[i].departmentId !in departments ==> r[i].id.None? && r[i].department.None?
  {
    seq(|cs|, i requires 0 <= i < |cs| => JoinRow(departments, cs[i]))
  }

  /** The joined rows, one by one. */
  lemma JoinedRows(departments: map<int, Department>, cs: seq<DeptCount>)
    ensures forall i :: 0 <= i < |cs| ==> Joined(departments, cs)[i] == JoinRow(departments, cs[i])
  {
  }

  predicate Descending(rs: seq<DeptRow>) { forall i, j :: 0 <= i < j < |rs| ==> rs[i].hired >= rs[j].hired }

  /** The row joins a descending list after every row with at least as many hires. */
  function InsertDescending(rs: seq<DeptRow>, x: DeptRow): (r: seq<DeptRow>)
    requires Descending(rs)
    ensures Descending(r)
    ensures multiset(r) == multiset(rs) + multiset{x}
    decreases |rs|
  {
    if rs == [] then [x]
    else if x.hired > rs[0].hired then [x] + rs
    else
      var rest := InsertDescending(rs[1..], x);
      assert rs == [rs[0]] + rs[1..];
      HeadBoundsInsert(rs, x, rest);
      DescendingCons(rs[0], rest);
      [rs[0]] + rest
  }

  /** The head of a descending list bounds every row of its tail, and any row no greater joined to it. */
  lemma HeadBoundsInsert(rs: seq<DeptRow>, x: DeptRow, rest: seq<DeptRow>)
    requires Descending(rs) && rs != [] && x.hired <= rs[0].hired
    requires multiset(rest) == multiset(rs[1..]) + multiset{x}
    ensures forall y :: y in rest ==> y.hired <= rs[0].hired
  {
    forall y | y in rest
      ensures y.hired <= rs[0].hired
    {
      assert y in multiset(rest);
      if y != x {
        assert y in multiset(rs[1..]);
        var j :| 0 <= j < |rs[1..]| && rs[1..][j] == y;
        assert rs[j + 1] == y;
      }
    }
  }

  lemma DescendingCons(h: DeptRow, t: seq<DeptRow>)
    requires Descending(t) && forall y :: y in t ==> y.hired <= h.hired
    ensures Descending([h] + t)
  {
  }

  /** sort_values('hired', ascending=False) */
  function SortByHired(rs: seq<DeptRow>): (r: seq<DeptRow>)
    ensures Descending(r)
    ensures multiset(r) == multiset(rs)
    decreases |rs|
  {
    if rs == [] then []
    else
      assert rs == rs[..|rs| - 1] + [rs[|rs| - 1]];
      InsertDescending(SortByHired(rs[..|rs| - 1]), rs[|rs| - 1])
  }

  /**
   * high_performing_departments(hired_employees_df, departments_df, year):
   * one row per department above the mean, most hires first.
   */
  function HighPerformingDepartments(hs: seq<HiredEmployee>, departments: map<int, Department>, year: int): (r: seq<DeptRow>)
    ensures Descending(r)
    ensures |r| == |HighPerformers(hs, year)|
    ensures forall x :: x in r ==> x.hired * |HiresPerDepartment(hs, year)| > YearHires(hs, year)
  {
    var high := HighPerformers(hs, year);
    var joined := Joined(departments, high);
    var r := SortByHired(joined);
    assert |r| == |multiset(r)| == |multiset(joined)| == |joined|;
    forall x | x in r
      ensures x.hired * |HiresPerDepartment(hs, year)| > YearHires(hs, year)
    {
      assert x in multiset(joined);
      var j :| 0 <= j < |joined| && joined[j] == x;
      assert high[j] in high;
    }
    r
  }

  /**
   * The result, most hires first, holds a row for exactly the departments
   * hired in the year whose count is above the mean: each such department's
   * joined row is there, and every row is one of them.
   */
  lemma ResultIsTheDepartmentsAboveTheMean(hs: seq<HiredEmployee>, departments: map<int, Department>, year: int)
    ensures var result := HighPerformingDepartments(hs, departments, year);
      var cs := HiresPerDepartment(hs, year);
      && Descending(result)
      && (forall d :: d in YearDepartments(hs, year) && AboveMean(DeptCount(d, HiredIn(hs, year, d)), |cs|, Total(cs)) ==>
            JoinRow(departments, DeptCount(d, HiredIn(hs, year, d))) in result)
      && (forall r :: r in result ==> exists c :: c in cs && AboveMean(c, |cs|, Total(cs)) && r == JoinRow(departments, c))
  {
    var cs := HiresPerDepartment(hs, year);
    var result := HighPerformingDepartments(hs, departments, year);
    JoinOfAboveIsExact(departments, cs, |cs|, Total(cs), result);
    var ds := YearDepartments(hs, year);
    forall d | d in ds
      ensures DeptCount(d, HiredIn(hs, year, d)) in cs
    {
      var i :| 0 <= i < |ds| && ds[i] == d;
      assert cs[i] == DeptCount(d, HiredIn(hs, year, d));
    }
  }

  /** Any arrangement of the joined rows above the mean holds each such row, and only those. */
  lemma JoinOfAboveIsExact(departments: map<int, Department>, cs: seq<DeptCount>, n: nat, total: nat, result: seq<DeptRow>)
    requires multiset(result) == multiset(Joined(departments, Above(cs, n, total)))
    ensures forall c :: c in cs && AboveMean(c, n, total) ==> JoinRow(departments, c) in result
    ensures forall r :: r in result ==> exists c :: c in cs && AboveMean(c, n, total) && r == JoinRow(departments, c)
  {
    var high := Above(cs, n, total);
    var joined := Joined(departments, high);
    JoinedRows(departments, high);
    forall c | c in cs && AboveMean(c, n, total)
      ensures JoinRow(departments, c) in result
    {
      var j :| 0 <= j < |high| && high[j] == c;
      assert joined[j] in multiset(result);
    }
    forall r | r in result
      ensures exists c :: c in cs && AboveMean(c, n, total) && r == JoinRow(departments, c)
    {
      assert r in multiset(joined);
      var j :| 0 <= j < |joined| && joined[j] == r;
      assert high[j] in high;
    }
  }

  /** When every department hired the same number, none is above the mean. */
  lemma {:induction false} EqualCountsGiveNoResult(cs: seq<DeptCount>, h: nat)
    requires forall i :: 0 <= i < |cs| ==> cs[i].hired == h
    ensures Total(cs) == h * |cs|
    ensures Above(cs, |cs|, Total(cs)) == []
  {
    TotalOfEqual(cs, h);
    NoneAbove(cs, |cs|, Total(cs));
  }

  /** Every count is the same. */
  predicate AllEqual(cs: seq<DeptCount>)
  {
    forall i, j :: 0 <= i < |cs| && 0 <= j < |cs| ==> cs[i].hired == cs[j].hired
  }

  /** The report is empty exactly when every department hired in the year hired the same number. */
  lemma EmptyExactlyWhenCountsEqual(hs: seq<HiredEmployee>, departments: map<int, Department>, year: int)
    ensures HighPerformingDepartments(hs, departments, year) == [] <==> AllEqual(HiresPerDepartment(hs, year))
  {
    var cs := HiresPerDepartment(hs, year);
    assert HighPerformers(hs, year) == Above(cs, |cs|, Total(cs));
    NoneAboveExactlyWhenEqual(cs);
  }

  /** Nothing is above the mean exactly when all counts are the same. */
  lemma NoneAboveExactlyWhenEqual(cs: seq<DeptCount>)
    ensures Above(cs, |cs|, Total(cs)) == [] <==> AllEqual(cs)
  {
    if AllEqual(cs) {
      if cs != [] {
        EqualCountsGiveNoResult(cs, cs[0].hired);
      }
    } else {
      var i, j :| 0 <= i < |cs| && 0 <= j < |cs| && cs[i].hired != cs[j].hired;
      UnequalCountsGiveAResult(cs, i, j);
    }
  }

  /** When two departments hired different numbers, some department is above the mean. */
  lemma UnequalCountsGiveAResult(cs: seq<DeptCount>, i: nat, j: nat)
    requires i < |cs| && j < |cs| && cs[i].hired != cs[j].hired
    ensures Above(cs, |cs|, Total(cs)) != []
  {
    var p := MostHired(cs);
    var m := cs[p];
    var k := if cs[i].hired < m.hired then i else j;
    TotalBelowMost(cs, m.hired, k);
    assert AboveMean(m, |cs|, Total(cs));
    assert m in Above(cs, |cs|, Total(cs));
  }

  /** The position of a count no other count exceeds. */
  function MostHired(cs: seq<DeptCount>): (p: nat)
    requires cs != []
    ensures p < |cs| && forall i :: 0 <= i < |cs| ==> cs[i].hired <= cs[p].hired
    decreases |cs|
  {
    if |cs| == 1 then 0
    else
      var rest := MostHired(cs[1..]) + 1;
      if cs[0].hired >= cs[rest].hired then 0 else rest
  }

  /** Counts bounded by m total less than m once per count, when one of them is below m. */
  lemma {:induction false} TotalBelowMost(cs: seq<DeptCount>, m: nat, k: nat)
    requires forall i :: 0 <= i < |cs| ==> cs[i].hired <= m
    requires k < |cs| && cs[k].hired < m
    ensures Total(cs) < m * |cs|
    decreases |cs|
  {
    var n := |cs| - 1;
    if k == 0 {
      TotalAtMost(cs[1..], m);
    } else {
      TotalBelowMost(cs[1..], m, k - 1);
    }
    assert m * (n + 1) == m * n + m;
  }

  lemma {:induction false} TotalAtMost(cs: seq<DeptCount>, m: nat)
    requires forall i :: 0 <= i < |cs| ==> cs[i].hired <= m
    ensures Total(cs) <= m * |cs|
    decreases |cs|
  {
    if cs != [] {
      var n := |cs| - 1;
      TotalAtMost(cs[1..], m);
      assert m * (n + 1) == m * n + m;
    }
  }

  /** With no count above the mean, the filter keeps nothing. */
  lemma {:induction false} NoneAbove(cs: seq<DeptCount>, n: nat, total: nat)
    requires forall i :: 0 <= i < |cs| ==> !AboveMean(cs[i], n, total)
    ensures Above(cs, n, total) == []
    decreases |cs|
  {
    if cs != [] {
      NoneAbove(cs[..|cs| - 1], n, total);
    }
  }

  lemma {:induction false} TotalOfEqual(cs: seq<DeptCount>, h: nat)
    requires forall i :: 0 <= i < |cs| ==> cs[i].hired == h
    ensures Total(cs) == h * |cs|
    decreases |cs|
  {
    if cs != [] {
      TotalOfEqual(cs[1..], h);
    }
  }

  /** One more hire adds one to the total over a repeat-free list of departments that includes its department. */
  lemma {:induction false} TotalAddsOneHire(hs: seq<HiredEmployee>, h: HiredEmployee, year: int, ds: seq<int>)
    requires Increasing(ds)
    ensures Total(CountsFor(hs + [h], year, ds)) ==
      Total(CountsFor(hs, year, ds)) + (if InYear(h, year) && h.departmentId in ds then 1 else 0)
    decreases |ds|
  {
    var all := hs + [h];
    assert all[..|all| - 1] == hs;
    if ds != [] {
      TotalAddsOneHire(hs, h, year, ds[1..]);
      assert h.departmentId == ds[0] ==> h.departmentId !in ds[1..];
    }
  }

  /**
   * The per-department counts add up to the year's hires, over any
   * repeat-free list that includes every department hired in the year.
   */
  lemma {:induction false} TotalIsYearHiresOver(hs: seq<HiredEmployee>, year: int, ds: seq<int>)
    requires Increasing(ds)
    requires forall i :: 0 <= i < |hs| && InYear(hs[i], year) ==> hs[i].departmentId in ds
    ensures Total(CountsFor(hs, year, ds)) == YearHires(hs, year)
    decreases |hs|
  {
    if hs == [] {
      ZeroCounts(year, ds);
    } else {
      var init, last := hs[..|hs| - 1], hs[|hs| - 1];
      assert hs == init + [last];
      TotalIsYearHiresOver(init, year, ds);
      TotalAddsOneHire(init, last, year, ds);
    }
  }

  lemma {:induction false} ZeroCounts(year: int, ds: seq<int>)
    ensures Total(CountsFor([], year, ds)) == 0
    decreases |ds|
  {
    if ds != [] {
      ZeroCounts(year, ds[1..]);
    }
  }

  /**
   * The mean the report compares with is the year's hires over the number
   * of departments hired in that year: the counts total the year's hires.
   */
  lemma TotalIsYearHires(hs: seq<HiredEmployee>, year: int)
    ensures Total(HiresPerDepartment(hs, year)) == YearHires(hs, year)
  {
    TotalIsYearHiresOver(hs, year, YearDepartments(hs, year));
  }
}
