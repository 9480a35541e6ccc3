/**
 * The group-by-and-aggregate step the report applies twice: once keyed by
 * month over all records, once keyed by department over the latest month's
 * records. Sums and means are stated per group against a column-by-column
 * reference (`Summary` of the records `Where` the key matches); `GroupBy`
 * computes the same thing in one pass over the records.
 */
module Aggregation {
  import opened Records

  /** The integer columns. */
  datatype Count = Headcount | NewHires | Terminations | OpenPositions | TimeToFillDays

  /** The rate columns, in percent. */
  datatype Rate = OfferAcceptanceRate | TurnoverRate

  function CountOf(r: Record, c: Count): int {
    match c
    case Headcount => r.headcount
    case NewHires => r.newHires
    case Terminations => r.terminations
    case OpenPositions => r.openPositions
    case TimeToFillDays => r.timeToFillDays
  }

  function RateOf(r: Record, q: Rate): real {
    match q
    case OfferAcceptanceRate => r.offerAcceptanceRate
    case TurnoverRate => r.turnoverRate
  }

  /** Column sum of an integer column. */
  function Total(rs: seq<Record>, c: Count): int {
    if rs == [] then 0 else Total(rs[..|rs| - 1], c) + CountOf(rs[|rs| - 1], c)
  }

  /** Column sum of a rate column. */
  function RateTotal(rs: seq<Record>, q: Rate): real {
    if rs == [] then 0.0 else RateTotal(rs[..|rs| - 1], q) + RateOf(rs[|rs| - 1], q)
  }

  /** Arithmetic mean of an integer column. */
  function MeanCount(rs: seq<Record>, c: Count): real
    requires rs != []
  {
    Total(rs, c) as real / |rs| as real
  }

  /** Arithmetic mean of a rate column. */
  function MeanRate(rs: seq<Record>, q: Rate): real
    requires rs != []
  {
    RateTotal(rs, q) / |rs| as real
  }

  /** The records whose key is `k`, in input order (a boolean-mask filter). */
  function Where<K(==)>(rs: seq<Record>, key: Record -> K, k: K): (w: seq<Record>)
    ensures forall r :: r in w <==> r in rs && key(r) == k
    ensures |w| <= |rs|
    ensures w == [] <==> k !in KeysOf(rs, key)
  {
    if rs == [] then []
    else
      var w, last := Where(rs[..|rs| - 1], key, k), rs[|rs| - 1];
      assert rs == rs[..|rs| - 1] + [last];
      KeysOfAppend(rs[..|rs| - 1], last, key);
      if key(last) == k then w + [last] else w
  }

  /**
   * The filter keeps every matching record as often as it occurs in the
   * input, and no other record.
   */
  lemma {:induction false} WhereCounts<K>(rs: seq<Record>, key: Record -> K, k: K)
    ensures forall x :: multiset(Where(rs, key, k))[x] == if key(x) == k then multiset(rs)[x] else 0
  {
    if rs != [] {
      var init, last := rs[..|rs| - 1], rs[|rs| - 1];
      assert rs == init + [last];
      WhereCounts(init, key, k);
    }
  }

  /** Filtering a concatenation concatenates the filtered parts: input order is kept. */
  lemma {:induction false} WhereConcat<K>(a: seq<Record>, b: seq<Record>, key: Record -> K, k: K)
    ensures Where(a + b, key, k) == Where(a, key, k) + Where(b, key, k)
  {
    if b != [] {
      var init, last := b[..|b| - 1], b[|b| - 1];
      assert a + b == (a + init) + [last];
      assert (a + b)[..|a + b| - 1] == a + init;
      WhereConcat(a, init, key, k);
    } else {
      assert a + b == a;
    }
  }

  /** The distinct keys present in the records. */
  function KeysOf<K(==)>(rs: seq<Record>, key: Record -> K): set<K> {
    set r | r in rs :: key(r)
  }

  lemma KeysOfAppend<K>(rs: seq<Record>, r: Record, key: Record -> K)
    ensures KeysOf(rs + [r], key) == KeysOf(rs, key) + {key(r)}
  {
    assert forall x :: x in rs + [r] <==> x in rs || x == r;
  }

  /** What one group aggregates to: the row count and the sum of every column. */
  datatype Totals = Totals(
    n: nat,
    headcount: int,
    newHires: int,
    terminations: int,
    openPositions: int,
    timeToFillDays: int,
    offerAcceptanceRate: real,
    turnoverRate: real)

  const NoRecords := Totals(0, 0, 0, 0, 0, 0, 0.0, 0.0)

  /** Folds one more record into a group. */
  function Add(t: Totals, r: Record): Totals {
    Totals(t.n + 1, t.headcount + r.headcount, t.newHires + r.newHires,
           t.terminations + r.terminations, t.openPositions + r.openPositions,
           t.timeToFillDays + r.timeToFillDays, t.offerAcceptanceRate + r.offerAcceptanceRate,
           t.turnoverRate + r.turnoverRate)
  }

  /** Reference aggregation of one group, column by column. */
  function Summary(rs: seq<Record>): Totals {
    Totals(|rs|, Total(rs, Headcount), Total(rs, NewHires), Total(rs, Terminations),
           Total(rs, OpenPositions), Total(rs, TimeToFillDays),
           RateTotal(rs, OfferAcceptanceRate), RateTotal(rs, TurnoverRate))
  }

  lemma SummaryAppend(rs: seq<Record>, r: Record)
    ensures Summary(rs + [r]) == Add(Summary(rs), r)
  {
    assert (rs + [r])[..|rs|] == rs;
  }

  /** One pass over the records, folding each into the group of its key. */
  function GroupBy<K(==)>(rs: seq<Record>, key: Record -> K): (g: map<K, Totals>)
    ensures g.Keys == KeysOf(rs, key)
  {
    if rs == [] then map[]
    else
      var init, last := rs[..|rs| - 1], rs[|rs| - 1];
      var g := GroupBy(init, key);
      assert rs == init + [last];
      KeysOfAppend(init, last, key);
      g[key(last) := Add(if key(last) in g then g[key(last)] else NoRecords, last)]
  }

  /**
   * Every group the one-pass fold builds is the reference aggregation of
   * exactly the records with that key, and is not empty.
   */
  lemma {:induction false} GroupByIsSummary<K>(rs: seq<Record>, key: Record -> K, k: K)
    requires k in KeysOf(rs, key)
    ensures k in GroupBy(rs, key)
    ensures GroupBy(rs, key)[k] == Summary(Where(rs, key, k))
    ensures GroupBy(rs, key)[k].n > 0
  {
    var init, last := rs[..|rs| - 1], rs[|rs| - 1];
    assert rs == init + [last];
    KeysOfAppend(init, last, key);
    if key(last) == k {
      SummaryAppend(Where(init, key, k), last);
      if k in KeysOf(init, key) {
        GroupByIsSummary(init, key, k);
      }
    } else {
      GroupByIsSummary(init, key, k);
    }
  }
}
