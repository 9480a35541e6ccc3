/**
 * The insight computation of the dashboard report: the monthly table with its
 * month-over-month columns, the latest and prior months, the latest month's
 * department table, and the departments singled out in the summary and on the
 * insights slide.
 */
module DashboardReport {
  import opened Wrappers
  import opened Sequences
  import opened Calendar
  import opened Records
  import opened Aggregation

  function MonthOf(r: Record): YearMonth {
    r.month
  }

  function DepartmentOf(r: Record): string {
    r.department
  }

  // ---------------------------------------------------------------------
  // Months in chronological order

  predicate Ascending(ms: seq<YearMonth>) {
    forall i, j :: 0 <= i < j < |ms| ==> Before(ms[i], ms[j])
  }

  lemma ElementsCons<T>(x: T, s: seq<T>)
    ensures Elements([x] + s) == {x} + Elements(s)
  {
    assert forall y :: y in [x] + s <==> y == x || y in s;
  }

  /** A month before every month of an ascending sequence can be put in front of it. */
  lemma PrependAscending(x: YearMonth, s: seq<YearMonth>)
    requires Ascending(s)
    requires forall y :: y in Elements(s) ==> Before(x, y)
    ensures Ascending([x] + s)
  {
    forall j | 0 <= j < |s|
      ensures Before(x, s[j])
    {
      assert s[j] in Elements(s);
    }
  }

  /** The head of an ascending sequence is before every later element. */
  lemma AscendingHead(s: seq<YearMonth>)
    requires Ascending(s) && s != []
    ensures forall y :: y in Elements(s[1..]) ==> Before(s[0], y)
  {
    forall y | y in Elements(s[1..])
      ensures Before(s[0], y)
    {
      var j :| 0 <= j < |s[1..]| && s[1..][j] == y;
      assert s[j + 1] == y;
    }
  }

  /** Puts `m` into its place in a strictly ascending sequence, unless it is there already. */
  function InsertMonth(ms: seq<YearMonth>, m: YearMonth): (r: seq<YearMonth>)
    requires Ascending(ms)
    ensures Ascending(r)
    ensures Elements(r) == Elements(ms) + {m}
  {
    if ms == [] then [m]
    else if m == ms[0] then ms
    else
      assert ms == [ms[0]] + ms[1..];
      ElementsCons(ms[0], ms[1..]);
      AscendingHead(ms);
      if Before(m, ms[0]) then
        ElementsCons(m, ms);
        PrependAscending(m, ms);
        [m] + ms
      else
        var rest := InsertMonth(ms[1..], m);
        ElementsCons(ms[0], rest);
        PrependAscending(ms[0], rest);
        [ms[0]] + rest
  }

  /** The distinct months of the records, earliest first (the group keys, sorted). */
  function SortedMonths(rs: seq<Record>): (ms: seq<YearMonth>)
    ensures Ascending(ms)
    ensures Elements(ms) == KeysOf(rs, MonthOf)
  {
    if rs == [] then []
    else
      assert rs == rs[..|rs| - 1] + [rs[|rs| - 1]];
      KeysOfAppend(rs[..|rs| - 1], rs[|rs| - 1], MonthOf);
      InsertMonth(SortedMonths(rs[..|rs| - 1]), rs[|rs| - 1].month)
  }

  // ---------------------------------------------------------------------
  // The monthly table

  /**
   * A period-over-period value. pandas yields NaN for the first row and for
   * 0/0, and an infinity for a non-zero change from zero.
   */
  datatype Change = Undefined | Finite(value: real) | Infinite(positive: bool)

  /**
   * `pct_change() * 100` for one pair of consecutive values: `(cur / prev - 1) * 100`.
   * It is a number exactly when the previous value is not zero; from zero it
   * is an infinity of the sign of the new value, or undefined when both are
   * zero.
   */
  function PctChange(prev: int, cur: int): (c: Change)
    ensures c.Finite? <==> prev != 0
    ensures c.Infinite? <==> prev == 0 && cur != 0
    ensures c.Infinite? ==> (c.positive <==> cur > 0)
    ensures c.Undefined? <==> prev == 0 && cur == 0
  {
    if prev != 0 then Finite((cur as real / prev as real - 1.0) * 100.0)
    else if cur > 0 then Infinite(true)
    else if cur < 0 then Infinite(false)
    else Undefined
  }

  /**
   * A finite percentage change is the change relative to the previous
   * value, times 100.
   */
  lemma PctChangeMeaning(prev: int, cur: int)
    ensures PctChange(prev, cur).Finite? ==>
      PctChange(prev, cur).value * prev as real == (cur - prev) as real * 100.0
  {
    if prev != 0 {
      var p, c := prev as real, cur as real;
      calc {
        (c / p - 1.0) * 100.0 * p;
        (c / p * p - p) * 100.0;
        { assert c / p * p == c; }
        (c - p) * 100.0;
      }
    }
  }

  /** Headcounts of 100 and then 110 give a change of exactly 10 percent. */
  lemma PctChangeExample()
    ensures PctChange(100, 110) == Finite(10.0)
  {
  }

  /** One row of the monthly table. */
  datatype MonthlyRow = MonthlyRow(
    month: YearMonth,
    headcount: int,
    newHires: int,
    terminations: int,
    openPositions: int,
    avgTimeToFill: real,
    avgOfferAcceptance: real,
    avgTurnoverRate: real,
    headcountMomPct: Change,
    newHiresMomPct: Change,
    turnoverMomDelta: Change)

  /** The aggregated row of one month, before the derived columns are added. */
  function MonthRow(m: YearMonth, t: Totals): MonthlyRow
    requires t.n > 0
  {
    MonthlyRow(m, t.headcount, t.newHires, t.terminations, t.openPositions,
               t.timeToFillDays as real / t.n as real, t.offerAcceptanceRate / t.n as real,
               t.turnoverRate / t.n as real, Undefined, Undefined, Undefined)
  }

  lemma MonthsGrouped(rs: seq<Record>)
    ensures forall m :: m in SortedMonths(rs) ==>
      && m in GroupBy(rs, MonthOf)
      && GroupBy(rs, MonthOf)[m] == Summary(Where(rs, MonthOf, m))
      && GroupBy(rs, MonthOf)[m].n > 0
  {
    forall m | m in SortedMonths(rs)
      ensures m in GroupBy(rs, MonthOf)
      ensures GroupBy(rs, MonthOf)[m] == Summary(Where(rs, MonthOf, m))
      ensures GroupBy(rs, MonthOf)[m].n > 0
    {
      assert m in Elements(SortedMonths(rs));
      GroupByIsSummary(rs, MonthOf, m);
    }
  }

  /**
   * `groupby("month_date").agg(...).sort_values("month_date")`: row `i` is
   * the `i`-th distinct month of the records, earliest first.
   */
  function AggregateMonths(rs: seq<Record>): (t: seq<MonthlyRow>)
    ensures |t| == |SortedMonths(rs)|
  {
    var g, ms := GroupBy(rs, MonthOf), SortedMonths(rs);
    MonthsGrouped(rs);
    seq(|ms|, i requires 0 <= i < |ms| => MonthRow(ms[i], g[ms[i]]))
  }

  /**
   * Adds `headcount_mom_pct`, `new_hires_mom_pct` and `turnover_mom_delta`,
   * and changes nothing else.
   */
  function WithChanges(t: seq<MonthlyRow>): (u: seq<MonthlyRow>)
    ensures |u| == |t|
  {
    seq(|t|, i requires 0 <= i < |t| =>
      if i == 0 then
        t[i].(headcountMomPct := Undefined, newHiresMomPct := Undefined, turnoverMomDelta := Undefined)
      else
        t[i].(headcountMomPct := PctChange(t[i - 1].headcount, t[i].headcount),
              newHiresMomPct := PctChange(t[i - 1].newHires, t[i].newHires),
              turnoverMomDelta := Finite(t[i].avgTurnoverRate - t[i - 1].avgTurnoverRate)))
  }

  /** The `monthly` table: one row per distinct month of the records, earliest first. */
  function Monthly(rs: seq<Record>): (t: seq<MonthlyRow>)
    ensures |t| == |SortedMonths(rs)|
  {
    WithChanges(AggregateMonths(rs))
  }

  lemma MonthlyMonths(rs: seq<Record>)
    ensures forall i :: 0 <= i < |Monthly(rs)| ==> Monthly(rs)[i].month == SortedMonths(rs)[i]
  {
  }

  /** Rows strictly ascending by month. */
  predicate Chronological(t: seq<MonthlyRow>) {
    forall i, j :: 0 <= i < j < |t| ==> Before(t[i].month, t[j].month)
  }

  /** `t` has exactly one row for each distinct month of `rs`, earliest first. */
  ghost predicate OneRowPerMonth(rs: seq<Record>, t: seq<MonthlyRow>) {
    && |t| == |KeysOf(rs, MonthOf)|
    && Chronological(t)
    && forall m :: m in KeysOf(rs, MonthOf) <==> exists i :: 0 <= i < |t| && t[i].month == m
  }

  lemma RowsFollowMonths(rs: seq<Record>, t: seq<MonthlyRow>, ms: seq<YearMonth>)
    requires Ascending(ms) && Elements(ms) == KeysOf(rs, MonthOf)
    requires |t| == |ms| && forall i :: 0 <= i < |t| ==> t[i].month == ms[i]
    ensures OneRowPerMonth(rs, t)
  {
    DistinctCardinality(ms);
    forall m | m in KeysOf(rs, MonthOf)
      ensures exists i :: 0 <= i < |t| && t[i].month == m
    {
      assert m in Elements(ms);
      var i :| 0 <= i < |ms| && ms[i] == m;
      assert t[i].month == m;
    }
    forall i | 0 <= i < |t|
      ensures t[i].month in KeysOf(rs, MonthOf)
    {
      assert ms[i] in Elements(ms);
    }
  }

  /**
   * The monthly table has one row per distinct month of the input, and its
   * rows are strictly ascending by month.
   */
  lemma MonthlyOneRowPerMonth(rs: seq<Record>)
    ensures OneRowPerMonth(rs, Monthly(rs))
  {
    MonthlyMonths(rs);
    RowsFollowMonths(rs, Monthly(rs), SortedMonths(rs));
  }

  /**
   * Each monthly row sums the four count columns, and averages time-to-fill,
   * offer acceptance and turnover, over exactly that month's records.
   */
  lemma MonthlyAggregates(rs: seq<Record>, i: nat)
    requires i < |Monthly(rs)|
    ensures var row := Monthly(rs)[i];
      var group := Where(rs, MonthOf, row.month);
      && group != []
      && row.headcount == Total(group, Headcount)
      && row.newHires == Total(group, NewHires)
      && row.terminations == Total(group, Terminations)
      && row.openPositions == Total(group, OpenPositions)
      && row.avgTimeToFill == MeanCount(group, TimeToFillDays)
      && row.avgOfferAcceptance == MeanRate(group, OfferAcceptanceRate)
      && row.avgTurnoverRate == MeanRate(group, TurnoverRate)
  {
    var ms := SortedMonths(rs);
    MonthsGrouped(rs);
    assert ms[i] in ms;
    assert Monthly(rs)[i].month == ms[i];
  }

  lemma WithChangesAt(u: seq<MonthlyRow>, t: seq<MonthlyRow>, i: nat)
    requires u == WithChanges(t) && i < |t|
    ensures |u| == |t|
    ensures
      && u[i] == t[i].(headcountMomPct := u[i].headcountMomPct, newHiresMomPct := u[i].newHiresMomPct,
                       turnoverMomDelta := u[i].turnoverMomDelta)
      && (i == 0 ==> u[i].headcountMomPct == u[i].newHiresMomPct == u[i].turnoverMomDelta == Undefined)
      && (i > 0 ==>
          && u[i].headcountMomPct == PctChange(u[i - 1].headcount, u[i].headcount)
          && u[i].newHiresMomPct == PctChange(u[i - 1].newHires, u[i].newHires)
          && u[i].turnoverMomDelta == Finite(u[i].avgTurnoverRate - u[i - 1].avgTurnoverRate))
  {
    if i > 0 {
      assert u[i - 1].headcount == t[i - 1].headcount && u[i - 1].newHires == t[i - 1].newHires;
      assert u[i - 1].avgTurnoverRate == t[i - 1].avgTurnoverRate;
    }
  }

  /**
   * The first row has no month-over-month values; every later row compares
   * itself with the row before it: percentage change of headcount and new
   * hires, difference of the average turnover rate (`diff()`). The aggregated columns
   * are unchanged by adding these.
   */
  lemma MonthlyChanges(rs: seq<Record>, i: nat)
    requires i < |Monthly(rs)|
    ensures |AggregateMonths(rs)| == |Monthly(rs)|
    ensures Monthly(rs)[i] == AggregateMonths(rs)[i].(headcountMomPct := Monthly(rs)[i].headcountMomPct,
      newHiresMomPct := Monthly(rs)[i].newHiresMomPct, turnoverMomDelta := Monthly(rs)[i].turnoverMomDelta)
    ensures i == 0 ==> Monthly(rs)[i].headcountMomPct == Undefined
    ensures i == 0 ==> Monthly(rs)[i].newHiresMomPct == Undefined
    ensures i == 0 ==> Monthly(rs)[i].turnoverMomDelta == Undefined
    ensures i > 0 ==> Monthly(rs)[i].headcountMomPct == PctChange(Monthly(rs)[i - 1].headcount, Monthly(rs)[i].headcount)
    ensures i > 0 ==> Monthly(rs)[i].newHiresMomPct == PctChange(Monthly(rs)[i - 1].newHires, Monthly(rs)[i].newHires)
    ensures i > 0 ==>
      Monthly(rs)[i].turnoverMomDelta == Finite(Monthly(rs)[i].avgTurnoverRate - Monthly(rs)[i - 1].avgTurnoverRate)
  {
    WithChangesAt(Monthly(rs), AggregateMonths(rs), i);
  }

  // ---------------------------------------------------------------------
  // The latest month's department table

  /** One row of `dept_latest`. */
  datatype DeptRow = DeptRow(department: string, headcount: int, turnoverRate: real, timeToFillDays: real)

  function DeptRowOf(d: string, t: Totals): DeptRow
    requires t.n > 0
  {
    DeptRow(d, t.headcount, t.turnoverRate / t.n as real, t.timeToFillDays as real / t.n as real)
  }

  /** The department's headcount summed, turnover and time-to-fill averaged, over `rs`. */
  predicate AggregatesDepartment(rs: seq<Record>, row: DeptRow) {
    var group := Where(rs, DepartmentOf, row.department);
    && group != []
    && row.headcount == Total(group, Headcount)
    && row.turnoverRate == MeanRate(group, TurnoverRate)
    && row.timeToFillDays == MeanCount(group, TimeToFillDays)
  }

  predicate DistinctDepartments(s: seq<DeptRow>) {
    forall i, j :: 0 <= i < j < |s| ==> s[i].department != s[j].department
  }

  /** The distinct departments of the records, in order of first appearance. */
  function DepartmentsIn(rs: seq<Record>): (ds: seq<string>)
    ensures Distinct(ds)
    ensures Elements(ds) == KeysOf(rs, DepartmentOf)
  {
    if rs == [] then []
    else
      var ds, d := DepartmentsIn(rs[..|rs| - 1]), rs[|rs| - 1].department;
      assert rs == rs[..|rs| - 1] + [rs[|rs| - 1]];
      KeysOfAppend(rs[..|rs| - 1], rs[|rs| - 1], DepartmentOf);
      if d in ds then
        assert d in Elements(ds);
        ds
      else
        assert Elements(ds + [d]) == Elements(ds) + {d};
        ds + [d]
  }

  lemma DepartmentsGrouped(rs: seq<Record>)
    ensures forall d :: d in DepartmentsIn(rs) ==>
      && d in GroupBy(rs, DepartmentOf)
      && GroupBy(rs, DepartmentOf)[d] == Summary(Where(rs, DepartmentOf, d))
      && GroupBy(rs, DepartmentOf)[d].n > 0
  {
    forall d | d in DepartmentsIn(rs)
      ensures d in GroupBy(rs, DepartmentOf)
      ensures GroupBy(rs, DepartmentOf)[d] == Summary(Where(rs, DepartmentOf, d))
      ensures GroupBy(rs, DepartmentOf)[d].n > 0
    {
      assert d in Elements(DepartmentsIn(rs));
      GroupByIsSummary(rs, DepartmentOf, d);
    }
  }

  /** `groupby("department").agg(...)` over the given records: row `i` is the `i`-th department present. */
  function DepartmentGroups(rs: seq<Record>): (s: seq<DeptRow>)
    ensures |s| == |DepartmentsIn(rs)|
    ensures forall i :: 0 <= i < |s| ==> s[i].department == DepartmentsIn(rs)[i]
  {
    var g, ds := GroupBy(rs, DepartmentOf), DepartmentsIn(rs);
    DepartmentsGrouped(rs);
    seq(|ds|, i requires 0 <= i < |ds| => DeptRowOf(ds[i], g[ds[i]]))
  }

  /**
   * `s` has exactly one row per department present in `rs`, and each row
   * aggregates that department's records of `rs`.
   */
  ghost predicate DepartmentTable(rs: seq<Record>, s: seq<DeptRow>) {
    && DistinctDepartments(s)
    && |s| == |KeysOf(rs, DepartmentOf)|
    && (forall d :: d in KeysOf(rs, DepartmentOf) <==> exists x :: x in s && x.department == d)
    && (forall x :: x in s ==> AggregatesDepartment(rs, x))
  }

  lemma GroupsAggregate(rs: seq<Record>)
    ensures forall x :: x in DepartmentGroups(rs) ==> AggregatesDepartment(rs, x)
  {
    var s, ds, g := DepartmentGroups(rs), DepartmentsIn(rs), GroupBy(rs, DepartmentOf);
    DepartmentsGrouped(rs);
    forall x | x in s
      ensures AggregatesDepartment(rs, x)
    {
      var i :| 0 <= i < |s| && s[i] == x;
      assert ds[i] in ds;
      assert x == DeptRowOf(ds[i], g[ds[i]]);
    }
  }

  lemma RowsFollowDepartments(rs: seq<Record>, s: seq<DeptRow>, ds: seq<string>)
    requires Distinct(ds) && Elements(ds) == KeysOf(rs, DepartmentOf)
    requires |s| == |ds| && forall i :: 0 <= i < |s| ==> s[i].department == ds[i]
    requires forall x :: x in s ==> AggregatesDepartment(rs, x)
    ensures DepartmentTable(rs, s)
  {
    DistinctCardinality(ds);
    forall d | d in KeysOf(rs, DepartmentOf)
      ensures exists x :: x in s && x.department == d
    {
      assert d in Elements(ds);
      var i :| 0 <= i < |ds| && ds[i] == d;
      assert s[i] in s;
    }
    forall x | x in s
      ensures x.department in KeysOf(rs, DepartmentOf)
    {
      var i :| 0 <= i < |s| && s[i] == x;
      assert ds[i] in Elements(ds);
    }
  }

  /** The grouped department rows, before sorting, form the department table of `rs`. */
  lemma DepartmentGroupsTable(rs: seq<Record>)
    ensures DepartmentTable(rs, DepartmentGroups(rs))
  {
    GroupsAggregate(rs);
    RowsFollowDepartments(rs, DepartmentGroups(rs), DepartmentsIn(rs));
  }

  /** Reordering a department table without repeating a department keeps it one. */
  lemma PermutedTable(rs: seq<Record>, s: seq<DeptRow>, p: seq<DeptRow>)
    requires DepartmentTable(rs, s)
    requires multiset(p) == multiset(s) && DistinctDepartments(p)
    ensures DepartmentTable(rs, p)
  {
    assert forall x :: x in p <==> x in s by {
      assert forall x :: x in p <==> x in multiset(p);
      assert forall x :: x in s <==> x in multiset(s);
    }
    assert |p| == |multiset(p)| == |multiset(s)| == |s|;
  }

  predicate ByHeadcountDesc(s: seq<DeptRow>) {
    forall i, j :: 0 <= i < j < |s| ==> s[i].headcount >= s[j].headcount
  }

  /** Inserts `x` after every row whose headcount is at least its own. */
  function InsertByHeadcount(s: seq<DeptRow>, x: DeptRow): (r: seq<DeptRow>)
    ensures multiset(r) == multiset(s) + multiset{x}
  {
    if s == [] then [x]
    else if s[0].headcount >= x.headcount then
      assert s == [s[0]] + s[1..];
      [s[0]] + InsertByHeadcount(s[1..], x)
    else
      [x] + s
  }

  /** The first row of a sorted table has the largest headcount, and the rest is sorted too. */
  lemma DescHead(s: seq<DeptRow>)
    requires ByHeadcountDesc(s) && s != []
    ensures ByHeadcountDesc(s[1..])
    ensures forall y :: y in s[1..] ==> y.headcount <= s[0].headcount
  {
    forall y | y in s[1..]
      ensures y.headcount <= s[0].headcount
    {
      var k :| 0 <= k < |s[1..]| && s[1..][k] == y;
      assert s[k + 1] == y;
    }
  }

  /** A row with at least every headcount of a sorted table can go in front of it. */
  lemma PrependDesc(x: DeptRow, s: seq<DeptRow>)
    requires ByHeadcountDesc(s)
    requires forall y :: y in s ==> y.headcount <= x.headcount
    ensures ByHeadcountDesc([x] + s)
  {
    forall j | 0 <= j < |s|
      ensures s[j].headcount <= x.headcount
    {
      assert s[j] in s;
    }
  }

  lemma {:induction false} InsertKeepsOrder(s: seq<DeptRow>, x: DeptRow)
    requires ByHeadcountDesc(s)
    ensures ByHeadcountDesc(InsertByHeadcount(s, x))
  {
    if s == [] {
    } else if s[0].headcount >= x.headcount {
      DescHead(s);
      InsertKeepsOrder(s[1..], x);
      var rest := InsertByHeadcount(s[1..], x);
      forall y | y in rest
        ensures y.headcount <= s[0].headcount
      {
        assert y in multiset(rest);
      }
      PrependDesc(s[0], rest);
    } else {
      DescHead(s);
      PrependDesc(x, s);
    }
  }

  /** `sort_values("headcount", ascending=False)`. */
  function SortByHeadcount(rows: seq<DeptRow>): (s: seq<DeptRow>)
    ensures multiset(s) == multiset(rows)
    ensures ByHeadcountDesc(s)
  {
    if rows == [] then []
    else
      assert rows == rows[..|rows| - 1] + [rows[|rows| - 1]];
      InsertKeepsOrder(SortByHeadcount(rows[..|rows| - 1]), rows[|rows| - 1]);
      InsertByHeadcount(SortByHeadcount(rows[..|rows| - 1]), rows[|rows| - 1])
  }

  /** The first row of a table without repeated departments differs from all the others. */
  lemma DistinctHead(s: seq<DeptRow>)
    requires DistinctDepartments(s) && s != []
    ensures DistinctDepartments(s[1..])
    ensures forall y :: y in s[1..] ==> y.department != s[0].department
  {
    forall y | y in s[1..]
      ensures y.department != s[0].department
    {
      var k :| 0 <= k < |s[1..]| && s[1..][k] == y;
      assert s[k + 1] == y;
    }
  }

  /** A row of a department the table lacks can go in front of it. */
  lemma PrependDistinct(x: DeptRow, s: seq<DeptRow>)
    requires DistinctDepartments(s)
    requires forall y :: y in s ==> y.department != x.department
    ensures DistinctDepartments([x] + s)
  {
    forall j | 0 <= j < |s|
      ensures s[j].department != x.department
    {
      assert s[j] in s;
    }
  }

  lemma {:induction false} InsertKeepsDistinct(s: seq<DeptRow>, x: DeptRow)
    requires DistinctDepartments(s)
    requires forall y :: y in s ==> y.department != x.department
    ensures DistinctDepartments(InsertByHeadcount(s, x))
  {
    if s == [] {
    } else if s[0].headcount >= x.headcount {
      DistinctHead(s);
      assert s[0] in s;
      forall y | y in s[1..]
        ensures y.department != x.department
      {
        assert y in s;
      }
      InsertKeepsDistinct(s[1..], x);
      var rest := InsertByHeadcount(s[1..], x);
      forall y | y in rest
        ensures y.department != s[0].department
      {
        assert y in multiset(rest);
      }
      PrependDistinct(s[0], rest);
    } else {
      PrependDistinct(x, s);
    }
  }

  lemma {:induction false} SortKeepsDistinct(rows: seq<DeptRow>)
    requires DistinctDepartments(rows)
    ensures DistinctDepartments(SortByHeadcount(rows))
  {
    if rows != [] {
      var init, last := rows[..|rows| - 1], rows[|rows| - 1];
      assert rows == init + [last];
      SortKeepsDistinct(init);
      var sorted := SortByHeadcount(init);
      forall y | y in sorted
        ensures y.department != last.department
      {
        assert y in multiset(init);
      }
      InsertKeepsDistinct(sorted, last);
    }
  }

  /**
   * `dept_latest`: the department groups of month `m`, reordered so that the
   * largest headcount comes first.
   */
  function DeptLatest(rs: seq<Record>, m: YearMonth): (s: seq<DeptRow>)
    ensures multiset(s) == multiset(DepartmentGroups(Where(rs, MonthOf, m)))
    ensures ByHeadcountDesc(s)
  {
    SortByHeadcount(DepartmentGroups(Where(rs, MonthOf, m)))
  }

  /**
   * The department table of month `m` has exactly one row per department
   * present in that month, aggregates only that month's records, and is
   * ordered by headcount, largest first.
   */
  lemma DeptLatestFacts(rs: seq<Record>, m: YearMonth)
    ensures ByHeadcountDesc(DeptLatest(rs, m))
    ensures DepartmentTable(Where(rs, MonthOf, m), DeptLatest(rs, m))
  {
    var month := Where(rs, MonthOf, m);
    var groups := DepartmentGroups(month);
    DepartmentGroupsTable(month);
    SortKeepsDistinct(groups);
    PermutedTable(month, groups, SortByHeadcount(groups));
  }

  // ---------------------------------------------------------------------
  // Superlatives

  function TurnoverOf(d: DeptRow): real {
    d.turnoverRate
  }

  function TimeToFillOf(d: DeptRow): real {
    d.timeToFillDays
  }

  function HeadcountOf(d: DeptRow): real {
    d.headcount as real
  }

  /** First row after a descending sort by `score`: a row with the largest score. */
  function MaxBy(rows: seq<DeptRow>, score: DeptRow -> real): (r: DeptRow)
    requires rows != []
    ensures r in rows
    ensures forall x :: x in rows ==> score(x) <= score(r)
  {
    if |rows| == 1 then rows[0]
    else
      var best := MaxBy(rows[1..], score);
      assert rows == [rows[0]] + rows[1..];
      if score(best) <= score(rows[0]) then rows[0] else best
  }

  /** First row after an ascending sort by `score`: a row with the smallest score. */
  function MinBy(rows: seq<DeptRow>, score: DeptRow -> real): (r: DeptRow)
    requires rows != []
    ensures r in rows
    ensures forall x :: x in rows ==> score(r) <= score(x)
  {
    if |rows| == 1 then rows[0]
    else
      var best := MinBy(rows[1..], score);
      assert rows == [rows[0]] + rows[1..];
      if score(rows[0]) <= score(best) then rows[0] else best
  }

  // ---------------------------------------------------------------------
  // build_insights

  /** The frames the report builds, with the two departments the summary names. */
  datatype Insights = Insights(
    monthly: seq<MonthlyRow>,
    deptLatest: seq<DeptRow>,
    latest: MonthlyRow,
    prior: MonthlyRow,
    topTurnover: DeptRow,
    bestTimeToFill: DeptRow)

  /** `iloc[-2]` (or `iloc[-1]`) on a table with too few rows. */
  datatype InsightError = FewerThanTwoMonths

  /**
   * In a table with one row per month, earliest first, the last row is the
   * latest month of the records and the second-to-last row the latest month
   * before it.
   */
  lemma LatestAndPrior(rs: seq<Record>, t: seq<MonthlyRow>)
    requires OneRowPerMonth(rs, t) && |t| >= 2
    ensures Before(t[|t| - 2].month, t[|t| - 1].month)
    ensures forall r :: r in rs ==> r.month == t[|t| - 1].month || Before(r.month, t[|t| - 1].month)
    ensures forall r :: r in rs && Before(r.month, t[|t| - 1].month) ==>
      r.month == t[|t| - 2].month || Before(r.month, t[|t| - 2].month)
  {
    var n := |t|;
    forall r | r in rs
      ensures r.month == t[n - 1].month || Before(r.month, t[n - 1].month)
      ensures Before(r.month, t[n - 1].month) ==> r.month == t[n - 2].month || Before(r.month, t[n - 2].month)
    {
      assert r.month in KeysOf(rs, MonthOf);
      var i :| 0 <= i < n && t[i].month == r.month;
      if i < n - 2 {
        assert Before(t[i].month, t[n - 2].month);
      }
    }
  }

  lemma DeptLatestNonEmpty(rs: seq<Record>, m: YearMonth)
    requires m in KeysOf(rs, MonthOf)
    ensures DeptLatest(rs, m) != []
  {
    var month := Where(rs, MonthOf, m);
    DeptLatestFacts(rs, m);
    assert month[0] in month;
    assert month[0].department in KeysOf(month, DepartmentOf);
  }

  /**
   * `build_insights`: fails when there are fewer than two distinct months;
   * otherwise `latest` is the row of the latest month and `prior` that of
   * the month before it, `dept_latest` is the latest month's department
   * table, and the two named departments have the highest turnover and the
   * lowest time-to-fill of that table.
   */
  function BuildInsights(rs: seq<Record>): (r: Result<Insights, InsightError>)
    ensures r.Failure? <==> |KeysOf(rs, MonthOf)| < 2
    ensures r.Success? ==>
      var ins := r.value;
      && ins.monthly == Monthly(rs)
      && |ins.monthly| >= 2
      && ins.latest == ins.monthly[|ins.monthly| - 1]
      && ins.prior == ins.monthly[|ins.monthly| - 2]
      && Before(ins.prior.month, ins.latest.month)
      && (forall x :: x in rs ==> x.month == ins.latest.month || Before(x.month, ins.latest.month))
      && (forall x :: x in rs && Before(x.month, ins.latest.month) ==>
            x.month == ins.prior.month || Before(x.month, ins.prior.month))
      && ins.deptLatest == DeptLatest(rs, ins.latest.month)
      && ins.deptLatest != []
      && ins.topTurnover in ins.deptLatest
      && ins.bestTimeToFill in ins.deptLatest
      && (forall d :: d in ins.deptLatest ==>
            d.turnoverRate <= ins.topTurnover.turnoverRate && ins.bestTimeToFill.timeToFillDays <= d.timeToFillDays)
  {
    var monthly := Monthly(rs);
    MonthlyOneRowPerMonth(rs);
    if |monthly| < 2 then Failure(FewerThanTwoMonths)
    else
      var latest, prior := monthly[|monthly| - 1], monthly[|monthly| - 2];
      LatestAndPrior(rs, monthly);
      assert latest.month in KeysOf(rs, MonthOf);
      DeptLatestNonEmpty(rs, latest.month);
      var dept := DeptLatest(rs, latest.month);
      Success(Insights(monthly, dept, latest, prior, MaxBy(dept, TurnoverOf), MinBy(dept, TimeToFillOf)))
  }

  // ---------------------------------------------------------------------
  // The insights slide

  /** The two departments named on the insights slide. */
  datatype SlidePicks = SlidePicks(riskDept: DeptRow, lowHeadcountDept: DeptRow)

  /**
   * `risk_dept` has the highest turnover and `low_hc_dept` the lowest
   * headcount of the department table; both are rows of it.
   */
  function PickSlideDepartments(deptLatest: seq<DeptRow>): (p: SlidePicks)
    requires deptLatest != []
    ensures p.riskDept in deptLatest && p.lowHeadcountDept in deptLatest
    ensures forall d :: d in deptLatest ==>
      d.turnoverRate <= p.riskDept.turnoverRate && p.lowHeadcountDept.headcount <= d.headcount
  {
    SlidePicks(MaxBy(deptLatest, TurnoverOf), MinBy(deptLatest, HeadcountOf))
  }
}
