/**
 * The older vanilla script (`main.js`): the `Transaktionen` section of a
 * German Activity Statement is cut out of the table, its closing data rows
 * become trades with every numeric column, the trades' cumulative realized
 * PnL becomes the chart line, and the line is cut to a range ending "now".
 *
 * The script reads the same statement layout as the React application and
 * shares its timestamp splitting (`IbTime`), section layout (`Statement`),
 * running total and date filter (`Curve`).
 */
module Legacy {
  import opened Js
  import opened Order
  import opened Folds
  import opened IbTime
  import opened Statement
  import opened Curve
  import Trades

  // ---------------------------------------------------------------------
  // Section scan

  /** `rows[i][0] && rows[i][0].startsWith(prefix)`: an empty first cell never matches. */
  predicate Opens(r: Row, prefix: string) {
    Truthy(FirstCell(r)) && StartsWith(FirstCell(r).value, prefix)
  }

  /**
   * `findSectionIndices(rows, prefix)`: ascending, exactly the rows whose first
   * cell is non-empty and starts with the prefix.
   */
  method FindSectionIndices(rows: seq<Row>, prefix: string) returns (out: seq<nat>)
    ensures out == IndicesWhere(rows, (r: Row) => Opens(r, prefix), |rows|)
    ensures forall k :: 0 <= k < |out| ==> out[k] < |rows| && Opens(rows[out[k]], prefix)
    ensures forall k, l :: 0 <= k < l < |out| ==> out[k] < out[l]
    ensures forall i :: 0 <= i < |rows| && Opens(rows[i], prefix) ==> i in out
  {
    out := [];
    for i := 0 to |rows|
      invariant out == IndicesWhere(rows, (r: Row) => Opens(r, prefix), i)
    {
      if Truthy(FirstCell(rows[i])) && StartsWith(FirstCell(rows[i]).value, prefix) {
        out := out + [i];
      }
    }
    IndicesWhereSound(rows, (r: Row) => Opens(r, prefix), |rows|);
    forall i | 0 <= i < |rows| && Opens(rows[i], prefix) ensures i in out {
      IndicesWhereComplete(rows, (r: Row) => Opens(r, prefix), |rows|, i);
    }
  }

  /** The script's scan differs from the React application's only for the empty prefix, which it never passes. */
  lemma OpensAgree(r: Row, prefix: string)
    ensures prefix != "" ==> (Opens(r, prefix) <==> Trades.Opens(r, prefix))
    ensures prefix == "" ==> (Opens(r, prefix) <==> Truthy(FirstCell(r))) && (Trades.Opens(r, prefix) <==> FirstCell(r).Some?)
  {
  }

  // ---------------------------------------------------------------------
  // The transactions section

  /** A row of the section the script keeps: discriminator `Data`, `SubTotal` or `Total`. */
  predicate IsTransactionRow(r: Row) {
    CellAt(r, 1) == Some("Data") || CellAt(r, 1) == Some("SubTotal") || CellAt(r, 1) == Some("Total")
  }

  /** Inside the section, rows with an empty first cell are skipped. */
  function KeepTransaction(r: Row): Option<Row> {
    if Truthy(FirstCell(r)) && IsTransactionRow(r) then Some(r) else None
  }

  /** `extractTransactions(rows)`: the kept rows between the first `Transaktionen` row and the end of its section. */
  function Transactions(rows: seq<Row>): seq<Row> {
    match Trades.SectionStart(rows)
    case None => []
    case Some(s) => Collect(rows, s + 1, SectionEnd(rows, s + 1), KeepTransaction)
  }

  /** For the `Transaktionen` marker, the script's scan reports the same rows as the React application's. */
  lemma {:induction false} ScansAgree(rows: seq<Row>, n: nat)
    requires n <= |rows|
    ensures IndicesWhere(rows, (r: Row) => Opens(r, Marker), n) == IndicesWhere(rows, (r: Row) => Trades.Opens(r, Marker), n)
  {
    if n > 0 {
      ScansAgree(rows, n - 1);
      OpensAgree(rows[n - 1], Marker);
    }
  }

  method ExtractTransactions(rows: seq<Row>) returns (out: seq<Row>)
    ensures out == Transactions(rows)
  {
    var starts := FindSectionIndices(rows, Marker);
    ScansAgree(rows, |rows|);
    Trades.StartsGiveSectionStart(rows, starts);
    if |starts| == 0 {
      return [];
    }
    out := ScanSection(rows, starts[0], KeepTransaction);
  }

  /** Without a `Transaktionen` row nothing is extracted. */
  lemma TransactionsNone(rows: seq<Row>)
    requires forall i :: 0 <= i < |rows| ==> !Trades.Opens(rows[i], Marker)
    ensures Transactions(rows) == []
  {
  }

  /** An extracted row is a row of the section (see `TransactionsMembers`). */
  lemma TransactionFromRow(rows: seq<Row>, s: nat, r: Row) returns (i: nat)
    requires Trades.SectionStart(rows) == Some(s)
    requires r in Transactions(rows)
    ensures s < i < SectionEnd(rows, s + 1) && rows[i] == r
    ensures FirstCell(r) == Some(Marker) && IsTransactionRow(r)
  {
    CollectMembers(rows, s + 1, SectionEnd(rows, s + 1), KeepTransaction, r);
    i :| s + 1 <= i < SectionEnd(rows, s + 1) && KeepTransaction(rows[i]) == Some(r);
    SectionEndFirst(rows, s + 1, i);
  }

  /** A kept row of the section is extracted (see `TransactionsMembers`). */
  lemma RowIsTransaction(rows: seq<Row>, s: nat, i: nat)
    requires Trades.SectionStart(rows) == Some(s)
    requires s < i < SectionEnd(rows, s + 1)
    requires FirstCell(rows[i]) == Some(Marker) && IsTransactionRow(rows[i])
    ensures rows[i] in Transactions(rows)
  {
    CollectMembers(rows, s + 1, SectionEnd(rows, s + 1), KeepTransaction, rows[i]);
  }

  /**
   * With the first `Transaktionen` row at `s`, a row is extracted exactly when
   * it lies after `s` and before the end of the section, its first cell is the
   * marker and its discriminator is `Data`, `SubTotal` or `Total`.
   */
  lemma TransactionsMembers(rows: seq<Row>, s: nat, r: Row)
    requires Trades.SectionStart(rows) == Some(s)
    ensures r in Transactions(rows) <==>
              exists i :: s < i < SectionEnd(rows, s + 1) && rows[i] == r && FirstCell(r) == Some(Marker) && IsTransactionRow(r)
  {
    if r in Transactions(rows) {
      var i := TransactionFromRow(rows, s, r);
    }
    if exists i :: s < i < SectionEnd(rows, s + 1) && rows[i] == r && FirstCell(r) == Some(Marker) && IsTransactionRow(r) {
      var i :| s < i < SectionEnd(rows, s + 1) && rows[i] == r && FirstCell(r) == Some(Marker) && IsTransactionRow(r);
      RowIsTransaction(rows, s, i);
    }
  }

  // ---------------------------------------------------------------------
  // Closed trades

  /** A trade of the script: every column of the row, the date parsed and the numbers converted. */
  datatype LegacyTrade = LegacyTrade(
    dateTime: Instant, symbol: Cell, assetClass: Cell, currency: Cell,
    qty: Num, price: Num, proceeds: Num, fees: Num, basis: Num, realized: Num)

  function DateTimeOf(tr: LegacyTrade): Instant {
    tr.dateTime
  }

  function RealizedOf(tr: LegacyTrade): Num {
    tr.realized
  }

  /** `Number(r[i])`: a missing cell is `Number(undefined)`, which is NaN. */
  function NumberOf(c: Cell, num: string -> Num): (n: Num)
    ensures c.None? ==> n == NaN
  {
    if c.Some? then num(c.value) else NaN
  }

  /** The trade a row describes: columns 2 to 11, the quantity with its thousands separators removed. */
  function TradeOfRow(r: Row, env: Trades.Env): LegacyTrade {
    LegacyTrade(
      ParseIbTime(CellAt(r, 5), env.now, env.parseIso),
      CellAt(r, 4), CellAt(r, 2), CellAt(r, 3),
      env.num(RemoveCommas(Text(CellAt(r, 6)))),
      NumberOf(CellAt(r, 7), env.num), NumberOf(CellAt(r, 8), env.num), NumberOf(CellAt(r, 9), env.num),
      NumberOf(CellAt(r, 10), env.num), NumberOf(CellAt(r, 11), env.num))
  }

  function SelectClosed(env: Trades.Env): Row -> Option<LegacyTrade> {
    (r: Row) => if IsClosedDataRow(r) then Some(TradeOfRow(r, env)) else None
  }

  /** `buildClosedTrades(transactionRows)`: the closing data rows as trades, sorted by date. */
  function ClosedTrades(rows: seq<Row>, env: Trades.Env): seq<LegacyTrade> {
    SortByTime(Collect(rows, 0, |rows|, SelectClosed(env)), DateTimeOf)
  }

  method BuildClosedTrades(rows: seq<Row>, env: Trades.Env) returns (trades: seq<LegacyTrade>)
    ensures trades == ClosedTrades(rows, env)
  {
    trades := [];
    for i := 0 to |rows|
      invariant trades == Collect(rows, 0, i, SelectClosed(env))
    {
      var r := rows[i];
      if CellAt(r, 1) != Some("Data") {
        continue;
      }
      var code := OrElse(CellAt(r, 13), "");
      if 'C' !in code {
        continue;
      }
      trades := trades + [TradeOfRow(r, env)];
    }
    trades := SortByTime(trades, DateTimeOf);
  }

  /**
   * At most one trade per row; a trade is produced exactly for each closing
   * data row, from that row; the trades are in date order, ascending when
   * every date is valid.
   */
  lemma ClosedTradesProperties(rows: seq<Row>, env: Trades.Env, tr: LegacyTrade)
    ensures |ClosedTrades(rows, env)| <= |rows|
    ensures tr in ClosedTrades(rows, env) <==> exists i :: 0 <= i < |rows| && IsClosedDataRow(rows[i]) && TradeOfRow(rows[i], env) == tr
    ensures Ordered(ClosedTrades(rows, env), DateTimeOf)
    ensures AllValid(ClosedTrades(rows, env), DateTimeOf) ==> Sorted(ClosedTrades(rows, env), DateTimeOf)
  {
    var kept := Collect(rows, 0, |rows|, SelectClosed(env));
    SortIsPermutation(kept, DateTimeOf);
    SortMembers(kept, DateTimeOf, tr);
    CollectMembers(rows, 0, |rows|, SelectClosed(env), tr);
    SortOrdered(kept, DateTimeOf);
    if AllValid(ClosedTrades(rows, env), DateTimeOf) {
      OrderedValidIsSorted(ClosedTrades(rows, env), DateTimeOf);
    }
  }

  // ---------------------------------------------------------------------
  // The chart line

  /** `rollingSeriesFromTrades(trades)`: point `i` is trade `i`'s date and the running sum of `realized`. */
  method RollingSeriesFromTrades(trades: seq<LegacyTrade>) returns (points: seq<Point>)
    ensures points == Running(trades, DateTimeOf, RealizedOf)
    ensures |points| == |trades|
    ensures forall i :: 0 <= i < |trades| ==>
              points[i].t == trades[i].dateTime && points[i].v == Total(trades[..i + 1], RealizedOf)
  {
    points := RunningTotal(trades, DateTimeOf, RealizedOf);
    forall i | 0 <= i < |trades|
      ensures points[i].t == trades[i].dateTime && points[i].v == Total(trades[..i + 1], RealizedOf)
    {
      assert points[i] == Point(DateTimeOf(trades[i]), Total(trades[..i + 1], RealizedOf));
    }
  }

  const DayMs := 24 * 60 * 60 * 1000

  /** The start `filterRange` uses for a key other than `'all'`: 24 hours, 7 or 30 days back, or the epoch. */
  function RangeStart(rangeKey: string, now: int): int {
    if rangeKey == "24h" then now - DayMs
    else if rangeKey == "1w" then now - 7 * DayMs
    else if rangeKey == "1m" then now - 30 * DayMs
    else 0
  }

  /** `filterRange(points, rangeKey)`. */
  function FilterRange(points: seq<Point>, rangeKey: string, now: int): seq<Point> {
    if rangeKey == "all" then points else KeepFrom(points, RangeStart(rangeKey, now))
  }

  /**
   * `'all'` returns the line itself; any other key keeps the points dated at or
   * after its start (an unknown key: the epoch).
   */
  lemma FilterRangeMembers(points: seq<Point>, rangeKey: string, now: int, p: Point)
    ensures rangeKey == "all" ==> FilterRange(points, rangeKey, now) == points
    ensures rangeKey != "all" ==>
              (p in FilterRange(points, rangeKey, now) <==> p in points && AtOrAfter(p.t, At(RangeStart(rangeKey, now))))
  {
    if rangeKey != "all" {
      KeepFromMembers(points, RangeStart(rangeKey, now), p);
    }
  }

  /**
   * For the same "now", `'24h'` is the `'1w'` line filtered again, `'1w'` the
   * `'1m'` line filtered again, and `'1m'` the `'all'` line filtered: each
   * range is a subsequence of the next.
   */
  lemma FilterRangeNested(points: seq<Point>, now: int)
    ensures FilterRange(points, "24h", now) == KeepFrom(FilterRange(points, "1w", now), now - DayMs)
    ensures FilterRange(points, "1w", now) == KeepFrom(FilterRange(points, "1m", now), now - 7 * DayMs)
    ensures FilterRange(points, "1m", now) == KeepFrom(FilterRange(points, "all", now), now - 30 * DayMs)
  {
    KeepFromNested(points, now - 7 * DayMs, now - DayMs);
    KeepFromNested(points, now - 30 * DayMs, now - 7 * DayMs);
  }

  // ---------------------------------------------------------------------
  // The composed data path

  /** What `update()` draws in PnL mode, from the raw table. */
  function ChartOf(rawRows: seq<Row>, rangeKey: string, env: Trades.Env): seq<Point> {
    FilterRange(Running(ClosedTrades(Transactions(rawRows), env), DateTimeOf, RealizedOf), rangeKey, env.now)
  }

  /** `update()` in PnL mode: the trades for the table and the points for the chart. */
  method Update(rawRows: seq<Row>, rangeKey: string, env: Trades.Env) returns (closedTrades: seq<LegacyTrade>, series: seq<Point>)
    ensures closedTrades == ClosedTrades(Transactions(rawRows), env)
    ensures series == ChartOf(rawRows, rangeKey, env)
  {
    var transactions := ExtractTransactions(rawRows);
    closedTrades := BuildClosedTrades(transactions, env);
    var pnlSeries := RollingSeriesFromTrades(closedTrades);
    series := FilterRange(pnlSeries, rangeKey, env.now);
  }

  /**
   * The chart has at most one point per extracted row, and with the `'all'`
   * range one per closed trade, its last value the total realized PnL.
   */
  lemma ChartShape(rawRows: seq<Row>, env: Trades.Env)
    ensures |ChartOf(rawRows, "all", env)| == |ClosedTrades(Transactions(rawRows), env)| <= |Transactions(rawRows)|
    ensures |ClosedTrades(Transactions(rawRows), env)| > 0 ==>
              Last(ChartOf(rawRows, "all", env)).v == Total(ClosedTrades(Transactions(rawRows), env), RealizedOf)
  {
    var trades := ClosedTrades(Transactions(rawRows), env);
    ClosedTradesProperties(Transactions(rawRows), env, LegacyTrade(Invalid, None, None, None, NaN, NaN, NaN, NaN, NaN, NaN));
    if |trades| > 0 {
      RunningLast(trades, DateTimeOf, RealizedOf);
    }
  }
}
