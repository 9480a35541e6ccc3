/**
 * The mock data generator: twelve months from February 2025 by six
 * departments, each row drawn around a per-department baseline with seasonal
 * adjustments and clamped into range. The random draws are parameters, so
 * the bounds below hold for every value the sampler could return.
 */
module MockData {
  import opened Sequences
  import opened Calendar
  import opened Records

  // ---------------------------------------------------------------------
  // Clamping and rounding

  /** Python's `min(a, b)`: `a` unless `b` is smaller. */
  function Min(a: real, b: real): real {
    if b < a then b else a
  }

  /** Python's `max(a, b)`: `a` unless `b` is larger. */
  function Max(a: real, b: real): real {
    if b > a then b else a
  }

  /** `bounded(value, low, high)`: `max(low, min(high, value))`. */
  function Bounded(value: real, low: real, high: real): (r: real)
    ensures low <= high ==> low <= r <= high
    ensures low <= value <= high ==> r == value
    ensures value < low ==> r == low
    ensures low <= high < value ==> r == high
    ensures high < low ==> r == low
  {
    Max(low, Min(high, value))
  }

  /** Clamping a clamped value changes nothing. */
  lemma BoundedIdempotent(value: real, low: real, high: real)
    ensures Bounded(Bounded(value, low, high), low, high) == Bounded(value, low, high)
  {
  }

  /** Python's `round(x)`: the nearest integer, ties to the even one. */
  function RoundHalfEven(x: real): (n: int)
    ensures x - 0.5 <= n as real <= x + 0.5
    ensures (n as real == x - 0.5 || n as real == x + 0.5) ==> n % 2 == 0
  {
    var f := x.Floor;
    var frac := x - f as real;
    if frac < 0.5 then f
    else if frac > 0.5 then f + 1
    else if f % 2 == 0 then f
    else f + 1
  }

  /** Rounding a value that lies between two integers stays between them. */
  lemma RoundBetween(x: real, lo: int, hi: int)
    requires lo as real <= x <= hi as real
    ensures lo <= RoundHalfEven(x) <= hi
  {
  }

  /** Rounding never reverses the order of two numbers. */
  lemma RoundMonotone(x: real, y: real)
    requires x <= y
    ensures RoundHalfEven(x) <= RoundHalfEven(y)
  {
  }

  /** `round(max(floor, x))`: never below the floor, whatever `x` is. */
  function RoundAtLeast(floor: int, x: real): (n: int)
    ensures n >= floor
    ensures x <= floor as real ==> n == floor
  {
    RoundHalfEven(Max(floor as real, x))
  }

  /** `10^digits`. */
  function Scale(digits: nat): (s: real)
    ensures s >= 1.0
  {
    if digits == 0 then 1.0 else 10.0 * Scale(digits - 1)
  }

  /**
   * Python's `round(x, digits)`, on exact numbers: at most half a unit of the
   * last kept digit away from `x`.
   */
  function RoundDigits(x: real, digits: nat): (y: real)
    ensures x - 0.5 / Scale(digits) <= y <= x + 0.5 / Scale(digits)
  {
    var s, n := Scale(digits), RoundHalfEven(x * Scale(digits));
    DivideBounds(x, n, s);
    n as real / s
  }

  /** An integer within one half of `x * s`, divided by `s`, is within `0.5 / s` of `x`. */
  lemma DivideBounds(x: real, n: int, s: real)
    requires s >= 1.0
    requires x * s - 0.5 <= n as real <= x * s + 0.5
    ensures x - 0.5 / s <= n as real / s <= x + 0.5 / s
  {
    assert (x * s - 0.5) / s == x - 0.5 / s;
    assert (x * s + 0.5) / s == x + 0.5 / s;
  }

  /** A rate in [0.004, 0.05] becomes a percentage with two decimals in [0.4, 5.0]. */
  lemma TurnoverPercentBounds(rate: real)
    requires 0.004 <= rate <= 0.05
    ensures 0.4 <= RoundDigits(rate * 100.0, 2) <= 5.0
  {
    assert Scale(2) == 100.0;
    RoundBetween(rate * 100.0 * 100.0, 40, 500);
  }

  /** A rate in [0.62, 0.95] becomes a percentage with one decimal in [62, 95]. */
  lemma OfferPercentBounds(rate: real)
    requires 0.62 <= rate <= 0.95
    ensures 62.0 <= RoundDigits(rate * 100.0, 1) <= 95.0
  {
    assert Scale(1) == 10.0;
    RoundBetween(rate * 100.0 * 10.0, 620, 950);
  }

  // ---------------------------------------------------------------------
  // Months, departments and seasons

  /** `pd.date_range("2025-02-01", "2026-01-01", freq="MS")` has twelve months. */
  const MonthCount: nat := 12

  /** The `monthIdx`-th month of the range: February 2025 plus `monthIdx` months. */
  function GeneratedMonth(monthIdx: nat): (ym: YearMonth)
    requires monthIdx < MonthCount
    ensures ym.year * 12 + ym.month == 2025 * 12 + 2 + monthIdx
  {
    if monthIdx <= 10 then YearMonth(2025, monthIdx + 2) else YearMonth(2026, 1)
  }

  /** The range runs from February 2025 to January 2026 and every month in it is representable. */
  lemma GeneratedMonthRepresentable(i: nat)
    requires i < MonthCount
    ensures GeneratedMonth(0) == YearMonth(2025, 2) && GeneratedMonth(MonthCount - 1) == YearMonth(2026, 1)
    ensures Representable(GeneratedMonth(i))
  {
  }

  /** The range is in calendar order, with no month repeated. */
  lemma GeneratedMonthsAscending(i: nat, j: nat)
    requires i < j < MonthCount
    ensures Before(GeneratedMonth(i), GeneratedMonth(j))
  {
  }

  /** The per-department constants of the generator. */
  datatype Profile = Profile(
    name: string,
    baseline: real,
    trend: real,
    turnoverBase: real,
    timeToFillBase: int,
    offerBase: real)

  /** The departments in generation order, with their baselines and trends. */
  const Profiles: seq<Profile> := [
    Profile("Engineering", 95.0, 1.6, 0.011, 47, 0.82),
    Profile("Sales", 62.0, 1.0, 0.019, 34, 0.79),
    Profile("Operations", 54.0, 0.7, 0.015, 31, 0.84),
    Profile("HR", 18.0, 0.2, 0.010, 29, 0.86),
    Profile("Finance", 21.0, 0.15, 0.009, 36, 0.81),
    Profile("Customer Success", 37.0, 0.8, 0.017, 26, 0.83)
  ]

  const DepartmentCount: nat := 6

  /** The six department names are pairwise different. */
  lemma DepartmentNamesDistinct(d: nat, e: nat)
    requires d < e < DepartmentCount
    ensures |Profiles| == DepartmentCount
    ensures Profiles[d].name != Profiles[e].name
  {
    assert Profiles[d].name[0] != Profiles[e].name[0];
  }

  // The four seasonal adjustments, looked up by calendar month (1-12).

  /** Hiring multiplier: 1.2 in March, April, September and October, 0.8 in every other month. */
  function HiringBoost(calendarMonth: int): real {
    if calendarMonth in [3, 4, 9, 10] then 1.2 else 0.8
  }

  /** Turnover rises by 0.002 in July and August. */
  function TurnoverBump(calendarMonth: int): real {
    if calendarMonth in [7, 8] then 0.002 else 0.0
  }

  /** Time-to-fill drops by one day in October and November. */
  function TimeToFillCut(calendarMonth: int): real {
    if calendarMonth in [10, 11] then 1.0 else 0.0
  }

  /** Offer acceptance drops by 0.015 in June and July. */
  function OfferDip(calendarMonth: int): real {
    if calendarMonth in [6, 7] then 0.015 else 0.0
  }

  // ---------------------------------------------------------------------
  // One row

  /**
   * The eight random draws of one row, in the order they are taken: the
   * headcount, hires, turnover and terminations noise, the open-positions
   * factor (uniform on [1.1, 2.2)) and noise, the time-to-fill noise and the
   * offer-acceptance noise.
   */
  datatype Draws = Draws(
    headcount: real,
    hires: real,
    turnover: real,
    terminations: real,
    openFactor: real,
    openPositions: real,
    timeToFill: real,
    offerAcceptance: real)

  /** The headcount: the department's trend line plus noise, rounded, at least 8. */
  function HeadcountDraw(monthIdx: nat, p: Profile, z: Draws): (n: int)
    ensures n >= 8
  {
    RoundAtLeast(8, p.baseline + p.trend * monthIdx as real + z.headcount)
  }

  /** New hires: 3.5% of the headcount, times the seasonal `boost`, plus noise, rounded, at least 0. */
  function HiresDraw(headcount: int, boost: real, z: Draws): (n: int)
    ensures n >= 0
  {
    RoundAtLeast(0, headcount as real * (0.035 * boost) + z.hires)
  }

  /** The turnover rate as a fraction, raised by `bump` and clamped to [0.004, 0.05]. */
  function TurnoverDraw(p: Profile, bump: real, z: Draws): (rate: real)
    ensures 0.004 <= rate <= 0.05
  {
    Bounded(p.turnoverBase + z.turnover + bump, 0.004, 0.05)
  }

  /** Terminations: the headcount times the turnover rate, plus noise, rounded, at least 0. */
  function TerminationsDraw(headcount: int, turnover: real, z: Draws): (n: int)
    ensures n >= 0
  {
    RoundAtLeast(0, headcount as real * turnover + z.terminations)
  }

  /** Open positions: new hires times the open-positions factor, plus noise, rounded, at least 0. */
  function OpenPositionsDraw(newHires: int, z: Draws): (n: int)
    ensures n >= 0
  {
    RoundAtLeast(0, newHires as real * z.openFactor + z.openPositions)
  }

  /** Days to fill: the department's base plus noise, less `cut`, rounded, at least 15. */
  function TimeToFillDraw(p: Profile, cut: real, z: Draws): (n: int)
    ensures n >= 15
  {
    RoundAtLeast(15, p.timeToFillBase as real + z.timeToFill - cut)
  }

  /** The offer-acceptance rate as a fraction, lowered by `dip` and clamped to [0.62, 0.95]. */
  function OfferDraw(p: Profile, dip: real, z: Draws): (rate: real)
    ensures 0.62 <= rate <= 0.95
  {
    Bounded(p.offerBase + z.offerAcceptance - dip, 0.62, 0.95)
  }

  /**
   * What each seasonal adjustment does, other things equal: the hiring boost
   * never lowers new hires, the turnover bump never lowers turnover, the
   * time-to-fill cut never raises time-to-fill, and the offer dip never
   * raises offer acceptance.
   */
  lemma SeasonalDirections(p: Profile, headcount: nat, z: Draws)
    ensures HiresDraw(headcount, 0.8, z) <= HiresDraw(headcount, 1.2, z)
    ensures TurnoverDraw(p, 0.0, z) <= TurnoverDraw(p, 0.002, z)
    ensures TimeToFillDraw(p, 1.0, z) <= TimeToFillDraw(p, 0.0, z)
    ensures OfferDraw(p, 0.015, z) <= OfferDraw(p, 0.0, z)
  {
    var h := headcount as real;
    assert h * (0.035 * 0.8) <= h * (0.035 * 1.2);
    RoundMonotone(Max(0.0, h * (0.035 * 0.8) + z.hires), Max(0.0, h * (0.035 * 1.2) + z.hires));
    var t := p.timeToFillBase as real + z.timeToFill;
    RoundMonotone(Max(15.0, t - 1.0), Max(15.0, t - 0.0));
  }

  /** The row of department `p` in month `monthIdx` of the range. */
  function MakeRow(monthIdx: nat, p: Profile, z: Draws): (row: Row)
    requires monthIdx < MonthCount
    ensures row.month == Format(GeneratedMonth(monthIdx))
    ensures row.department == p.name
  {
    var ym := GeneratedMonth(monthIdx);
    var headcount := HeadcountDraw(monthIdx, p, z);
    var newHires := HiresDraw(headcount, HiringBoost(ym.month), z);
    var turnover := TurnoverDraw(p, TurnoverBump(ym.month), z);
    var terminations := TerminationsDraw(headcount, turnover, z);
    var openPositions := OpenPositionsDraw(newHires, z);
    var timeToFill := TimeToFillDraw(p, TimeToFillCut(ym.month), z);
    var offer := OfferDraw(p, OfferDip(ym.month), z);
    GeneratedMonthRepresentable(monthIdx);
    Row(Format(ym), p.name, headcount, newHires, terminations, openPositions, timeToFill,
        RoundDigits(offer * 100.0, 1), RoundDigits(turnover * 100.0, 2))
  }

  /** The floors and clamps every generated row satisfies. */
  predicate WithinGeneratorBounds(row: Row) {
    && row.headcount >= 8
    && row.newHires >= 0
    && row.terminations >= 0
    && row.openPositions >= 0
    && row.timeToFillDays >= 15
    && 0.4 <= row.turnoverRate <= 5.0
    && 62.0 <= row.offerAcceptanceRate <= 95.0
  }

  /** Whatever the draws, a row respects every floor and clamp of the generator. */
  lemma MakeRowBounds(monthIdx: nat, p: Profile, z: Draws)
    requires monthIdx < MonthCount
    ensures WithinGeneratorBounds(MakeRow(monthIdx, p, z))
  {
    var ym := GeneratedMonth(monthIdx);
    TurnoverPercentBounds(TurnoverDraw(p, TurnoverBump(ym.month), z));
    OfferPercentBounds(OfferDraw(p, OfferDip(ym.month), z));
  }

  /**
   * The whole row by its position `k` in the range, counting from February
   * 2025 and without going through calendar months: hiring is boosted in
   * positions 1, 2, 7 and 8 (March, April, September, October), turnover
   * raised before clamping in positions 5 and 6 (July, August), time-to-fill
   * cut in positions 8 and 9 (October, November), and offer acceptance
   * lowered before clamping in positions 4 and 5 (June, July).
   */
  lemma SeasonalRules(k: nat, p: Profile, z: Draws)
    requires k < MonthCount
    ensures var row := MakeRow(k, p, z);
      var turnover := TurnoverDraw(p, if k in {5, 6} then 0.002 else 0.0, z);
      && row.headcount == HeadcountDraw(k, p, z)
      && row.newHires == HiresDraw(row.headcount, if k in {1, 2, 7, 8} then 1.2 else 0.8, z)
      && row.terminations == TerminationsDraw(row.headcount, turnover, z)
      && row.openPositions == OpenPositionsDraw(row.newHires, z)
      && row.timeToFillDays == TimeToFillDraw(p, if k in {8, 9} then 1.0 else 0.0, z)
      && row.offerAcceptanceRate == RoundDigits(OfferDraw(p, if k in {4, 5} then 0.015 else 0.0, z) * 100.0, 1)
      && row.turnoverRate == RoundDigits(turnover * 100.0, 2)
  {
    SeasonsByIndex(k);
  }

  /** The four seasonal lookups of month `k` of the range, by position. */
  lemma SeasonsByIndex(k: nat)
    requires k < MonthCount
    ensures HiringBoost(GeneratedMonth(k).month) == if k in {1, 2, 7, 8} then 1.2 else 0.8
    ensures TurnoverBump(GeneratedMonth(k).month) == if k in {5, 6} then 0.002 else 0.0
    ensures TimeToFillCut(GeneratedMonth(k).month) == if k in {8, 9} then 1.0 else 0.0
    ensures OfferDip(GeneratedMonth(k).month) == if k in {4, 5} then 0.015 else 0.0
  {
    var m := GeneratedMonth(k).month;
    assert m == if k <= 10 then k + 2 else 1;
    assert (m in [3, 4, 9, 10]) == (k in {1, 2, 7, 8});
    assert (m in [7, 8]) == (k in {5, 6});
    assert (m in [10, 11]) == (k in {8, 9});
    assert (m in [6, 7]) == (k in {4, 5});
  }

  // ---------------------------------------------------------------------
  // The whole table

  /** The table the generator writes, row `i` being month `i / 6` and department `i % 6`. */
  function GeneratedRows(draws: seq<Draws>): (rows: seq<Row>)
    requires |draws| == MonthCount * DepartmentCount
    ensures |rows| == |draws|
  {
    seq(|draws|, i requires 0 <= i < |draws| =>
      MakeRow(i / DepartmentCount, Profiles[i % DepartmentCount], draws[i]))
  }

  /** Every generated row respects the generator's floors and clamps. */
  lemma GeneratedRowsBounds(draws: seq<Draws>)
    requires |draws| == MonthCount * DepartmentCount
    ensures forall i :: 0 <= i < |GeneratedRows(draws)| ==> WithinGeneratorBounds(GeneratedRows(draws)[i])
  {
    forall i | 0 <= i < |draws|
      ensures WithinGeneratorBounds(GeneratedRows(draws)[i])
    {
      MakeRowBounds(i / DepartmentCount, Profiles[i % DepartmentCount], draws[i]);
    }
  }

  /** Extending a prefix of a sequence by the next element. */
  lemma PrefixStep<T>(s: seq<T>, k: nat)
    requires k < |s|
    ensures s[..k] + [s[k]] == s[..k + 1]
  {
  }

  /**
   * The nested loops over months and departments: month by month in calendar
   * order and within a month in the fixed department order, one row each.
   */
  method Generate(draws: seq<Draws>) returns (rows: seq<Row>)
    requires |draws| == MonthCount * DepartmentCount
    ensures rows == GeneratedRows(draws)
    ensures |rows| == 72
    ensures forall i :: 0 <= i < |rows| ==> WithinGeneratorBounds(rows[i])
  {
    rows := [];
    for monthIdx := 0 to MonthCount
      invariant |rows| == monthIdx * DepartmentCount
      invariant rows == GeneratedRows(draws)[..|rows|]
    {
      for d := 0 to DepartmentCount
        invariant |rows| == monthIdx * DepartmentCount + d
        invariant rows == GeneratedRows(draws)[..|rows|]
      {
        var k := monthIdx * DepartmentCount + d;
        assert k / DepartmentCount == monthIdx && k % DepartmentCount == d;
        var row := MakeRow(monthIdx, Profiles[d], draws[k]);
        assert row == GeneratedRows(draws)[k];
        PrefixStep(GeneratedRows(draws), k);
        rows := rows + [row];
      }
    }
    GeneratedRowsBounds(draws);
  }

  /** Row `k * 6 + d` is the row of month `k` and department `d`. */
  lemma GeneratedRowAt(draws: seq<Draws>, k: nat, d: nat)
    requires |draws| == MonthCount * DepartmentCount
    requires k < MonthCount && d < DepartmentCount
    ensures GeneratedRows(draws)[k * DepartmentCount + d].month == Format(GeneratedMonth(k))
    ensures GeneratedRows(draws)[k * DepartmentCount + d].department == Profiles[d].name
  {
    var i := k * DepartmentCount + d;
    assert i / DepartmentCount == k && i % DepartmentCount == d;
  }

  /** The seasonal rules hold for row `k * 6 + d` of the generated table, with its own draws. */
  lemma GeneratedSeasons(draws: seq<Draws>, k: nat, d: nat)
    requires |draws| == MonthCount * DepartmentCount
    requires k < MonthCount && d < DepartmentCount
    ensures var i := k * DepartmentCount + d;
      var row, p, z := GeneratedRows(draws)[i], Profiles[d], draws[i];
      var turnover := TurnoverDraw(p, if k in {5, 6} then 0.002 else 0.0, z);
      && row.headcount == HeadcountDraw(k, p, z)
      && row.newHires == HiresDraw(row.headcount, if k in {1, 2, 7, 8} then 1.2 else 0.8, z)
      && row.terminations == TerminationsDraw(row.headcount, turnover, z)
      && row.openPositions == OpenPositionsDraw(row.newHires, z)
      && row.timeToFillDays == TimeToFillDraw(p, if k in {8, 9} then 1.0 else 0.0, z)
      && row.offerAcceptanceRate == RoundDigits(OfferDraw(p, if k in {4, 5} then 0.015 else 0.0, z) * 100.0, 1)
      && row.turnoverRate == RoundDigits(turnover * 100.0, 2)
  {
    var i := k * DepartmentCount + d;
    assert i / DepartmentCount == k && i % DepartmentCount == d;
    SeasonalRules(k, Profiles[d], draws[i]);
  }

  /** No (month, department) pair occurs twice in the generated table. */
  lemma GeneratedKeysDistinct(draws: seq<Draws>, i: nat, j: nat)
    requires |draws| == MonthCount * DepartmentCount
    requires i < j < |draws|
    ensures GeneratedRows(draws)[i].month != GeneratedRows(draws)[j].month ||
            GeneratedRows(draws)[i].department != GeneratedRows(draws)[j].department
  {
    var ki, di, kj, dj := i / DepartmentCount, i % DepartmentCount, j / DepartmentCount, j % DepartmentCount;
    assert i == ki * DepartmentCount + di && j == kj * DepartmentCount + dj;
    GeneratedRowAt(draws, ki, di);
    GeneratedRowAt(draws, kj, dj);
    if ki == kj {
      DepartmentNamesDistinct(di, dj);
    } else {
      GeneratedMonthRepresentable(ki);
      GeneratedMonthRepresentable(kj);
      GeneratedMonthsAscending(ki, kj);
      FormatInjective(GeneratedMonth(ki), GeneratedMonth(kj));
    }
  }
}
