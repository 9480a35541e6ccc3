/**
 * The rows of the monthly HR metrics table: one per (month, department),
 * with the nine columns the generator writes and the report reads.
 */
module Records {
  import opened Wrappers
  import opened Calendar

  /** One row as it stands in the table; `month` is the `YYYY-MM` text. */
  datatype Row = Row(
    month: string,
    department: string,
    headcount: int,
    newHires: int,
    terminations: int,
    openPositions: int,
    timeToFillDays: int,
    offerAcceptanceRate: real,
    turnoverRate: real)

  /** A loaded row: the `month` text replaced by the month it denotes (`month_date`). */
  datatype Record = Record(
    month: YearMonth,
    department: string,
    headcount: int,
    newHires: int,
    terminations: int,
    openPositions: int,
    timeToFillDays: int,
    offerAcceptanceRate: real,
    turnoverRate: real)

  /** The date conversion failed on the row at this position. */
  datatype LoadError = MalformedMonth(row: nat)

  function ToRecord(row: Row, m: YearMonth): Record {
    Record(m, row.department, row.headcount, row.newHires, row.terminations, row.openPositions,
           row.timeToFillDays, row.offerAcceptanceRate, row.turnoverRate)
  }

  /**
   * Adds the parsed month to every row. It fails, naming the first offending
   * row, exactly when some `month` text does not parse; otherwise it keeps
   * the rows, their order and every other column.
   */
  function Load(rows: seq<Row>): (r: Result<seq<Record>, LoadError>)
    ensures r.Success? <==> forall i :: 0 <= i < |rows| ==> Parse(rows[i].month).Some?
    ensures r.Success? ==>
      && |r.value| == |rows|
      && forall i :: 0 <= i < |rows| ==> r.value[i] == ToRecord(rows[i], Parse(rows[i].month).value)
    ensures r.Failure? ==>
      && r.error.row < |rows|
      && Parse(rows[r.error.row].month).None?
      && forall i :: 0 <= i < r.error.row ==> Parse(rows[i].month).Some?
  {
    if rows == [] then Success([])
    else
      match Parse(rows[0].month)
      case None => Failure(MalformedMonth(0))
      case Some(m) =>
        match Load(rows[1..])
        case Failure(e) => Failure(MalformedMonth(e.row + 1))
        case Success(tail) => Success([ToRecord(rows[0], m)] + tail)
  }
}
