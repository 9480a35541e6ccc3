/**
 * The generator and the report together: the generated table always loads,
 * and the report built from it compares January 2026 with December 2025.
 */
module Pipeline {
  import opened Wrappers
  import opened Sequences
  import opened Calendar
  import opened Records
  import opened Aggregation
  import opened DashboardReport
  import opened MockData

  /** Every generated row has a well-formed month, so loading succeeds and keeps the generator's months. */
  lemma GeneratedRowsLoad(draws: seq<Draws>)
    requires |draws| == MonthCount * DepartmentCount
    ensures Load(GeneratedRows(draws)).Success?
    ensures |Load(GeneratedRows(draws)).value| == |draws|
    ensures forall i :: 0 <= i < |draws| ==>
      Load(GeneratedRows(draws)).value[i].month == GeneratedMonth(i / DepartmentCount)
  {
    var rows := GeneratedRows(draws);
    forall i | 0 <= i < |rows|
      ensures Parse(rows[i].month) == Some(GeneratedMonth(i / DepartmentCount))
    {
      GeneratedMonthRepresentable(i / DepartmentCount);
      ParseFormat(GeneratedMonth(i / DepartmentCount));
    }
  }

  /** Records laid out as the generator lays out its rows: six per month, from February 2025 on. */
  predicate InGeneratedLayout(rs: seq<Record>) {
    && |rs| == MonthCount * DepartmentCount
    && forall i :: 0 <= i < |rs| ==> rs[i].month == GeneratedMonth(i / DepartmentCount)
  }

  /**
   * A set of months holding December 2025 and January 2026, nothing after
   * January and nothing strictly between December and January.
   */
  ghost predicate EndsWithDecemberJanuary(months: set<YearMonth>) {
    var dec, jan := YearMonth(2025, 12), YearMonth(2026, 1);
    && dec in months
    && jan in months
    && forall m :: m in months ==>
      (m == jan || Before(m, jan)) && (Before(m, jan) ==> m == dec || Before(m, dec))
  }

  /** The months of records in the generator's layout end with December 2025 and January 2026. */
  lemma GeneratedLayoutMonths(rs: seq<Record>)
    requires InGeneratedLayout(rs)
    ensures EndsWithDecemberJanuary(KeysOf(rs, MonthOf))
  {
    var dec, jan := GeneratedMonth(10), GeneratedMonth(11);
    assert 60 / DepartmentCount == 10 && 66 / DepartmentCount == 11;
    assert rs[60].month == dec && rs[60] in rs;
    assert rs[66].month == jan && rs[66] in rs;
    forall m | m in KeysOf(rs, MonthOf)
      ensures (m == jan || Before(m, jan)) && (Before(m, jan) ==> m == dec || Before(m, dec))
    {
      var x :| x in rs && x.month == m;
      var i :| 0 <= i < |rs| && rs[i] == x;
      assert m == GeneratedMonth(i / DepartmentCount);
    }
  }

  /** The last two months of a sequence are December 2025 and January 2026. */
  predicate LastTwoDecemberJanuary(ms: seq<YearMonth>) {
    |ms| >= 2 && ms[|ms| - 1] == YearMonth(2026, 1) && ms[|ms| - 2] == YearMonth(2025, 12)
  }

  /** An ascending sequence of such months ends with December 2025 and January 2026. */
  lemma AscendingEnds(ms: seq<YearMonth>, months: set<YearMonth>)
    requires Ascending(ms) && Elements(ms) == months
    requires EndsWithDecemberJanuary(months)
    ensures LastTwoDecemberJanuary(ms)
  {
    var dec, jan := YearMonth(2025, 12), YearMonth(2026, 1);
    var id :| 0 <= id < |ms| && ms[id] == dec;
    var ij :| 0 <= ij < |ms| && ms[ij] == jan;
    var last := |ms| - 1;
    assert ms[last] in Elements(ms);
    assert ms[last - 1] in Elements(ms);
  }

  /** Records whose months end with December 2025 and January 2026 have sorted months ending with them. */
  lemma KeysSortedEnd(rs: seq<Record>)
    requires EndsWithDecemberJanuary(KeysOf(rs, MonthOf))
    ensures LastTwoDecemberJanuary(SortedMonths(rs))
  {
    AscendingEnds(SortedMonths(rs), KeysOf(rs, MonthOf));
  }

  /**
   * The generated table always loads, and its sorted months end with
   * December 2025 and January 2026.
   */
  lemma GeneratedRecordsMonths(draws: seq<Draws>)
    requires |draws| == MonthCount * DepartmentCount
    ensures Load(GeneratedRows(draws)).Success?
    ensures LastTwoDecemberJanuary(SortedMonths(Load(GeneratedRows(draws)).value))
  {
    GeneratedRowsLoad(draws);
    var rs := Load(GeneratedRows(draws)).value;
    assert InGeneratedLayout(rs);
    GeneratedLayoutMonths(rs);
    KeysSortedEnd(rs);
  }

  /** A table whose months follow a sequence of months ends with that sequence's last two months. */
  lemma LastTwoFollow(t: seq<MonthlyRow>, ms: seq<YearMonth>)
    requires |t| == |ms| >= 2
    requires forall i :: 0 <= i < |t| ==> t[i].month == ms[i]
    ensures t[|t| - 1].month == ms[|ms| - 1] && t[|t| - 2].month == ms[|ms| - 2]
  {
  }

  /** The monthly table follows the sorted months, so it too ends with December and January. */
  lemma MonthlyEndsDecemberJanuary(rs: seq<Record>)
    requires LastTwoDecemberJanuary(SortedMonths(rs))
    ensures |Monthly(rs)| >= 2
    ensures Monthly(rs)[|Monthly(rs)| - 1].month == YearMonth(2026, 1)
    ensures Monthly(rs)[|Monthly(rs)| - 2].month == YearMonth(2025, 12)
  {
    MonthlyMonths(rs);
    LastTwoFollow(Monthly(rs), SortedMonths(rs));
  }

  /** A monthly table of at least two rows makes the insights succeed with its last two rows. */
  lemma InsightsFromMonthly(rs: seq<Record>)
    requires |Monthly(rs)| >= 2
    ensures BuildInsights(rs).Success?
    ensures BuildInsights(rs).value.latest == Monthly(rs)[|Monthly(rs)| - 1]
    ensures BuildInsights(rs).value.prior == Monthly(rs)[|Monthly(rs)| - 2]
  {
    MonthlyOneRowPerMonth(rs);
  }

  /**
   * For any draws, the report on the generated data has a latest month of
   * January 2026 and a prior month of December 2025.
   */
  lemma ReportOnGeneratedData(draws: seq<Draws>)
    requires |draws| == MonthCount * DepartmentCount
    ensures Load(GeneratedRows(draws)).Success?
    ensures BuildInsights(Load(GeneratedRows(draws)).value).Success?
    ensures BuildInsights(Load(GeneratedRows(draws)).value).value.latest.month == YearMonth(2026, 1)
    ensures BuildInsights(Load(GeneratedRows(draws)).value).value.prior.month == YearMonth(2025, 12)
  {
    GeneratedRecordsMonths(draws);
    var rs := Load(GeneratedRows(draws)).value;
    MonthlyEndsDecemberJanuary(rs);
    InsightsFromMonthly(rs);
  }
}
