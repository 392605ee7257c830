/**
 * Trade reconstruction in the React application (`buildClosedTrades` and
 * `findSectionIndices`): a raw CSV table becomes a date-ordered sequence of
 * closed trades. Two layouts are recognised. A Flex-Query execution export has
 * a header row naming its columns, found by `indexOf`; a German Activity
 * Statement has a `Transaktionen` section read at fixed column offsets.
 */
module Trades {
  import opened Js
  import opened Order
  import opened IbTime
  import opened Statement

  /** A closed trade: its date, symbol (`r[i]`, possibly `undefined`), signed quantity, fees and realized PnL. */
  datatype Trade = Trade(t: Instant, symbol: Cell, qty: Num, fees: Num, realized: Num)

  function TimeOf(tr: Trade): Instant {
    tr.t
  }

  /** What `buildClosedTrades` receives: an array of rows, or something that is not an array. */
  datatype Table = NotAnArray | Rows(rows: seq<Row>)

  /**
   * The collaborators the code calls but this model leaves abstract: the
   * current time, `new Date(iso)` and the JavaScript `Number(string)` conversion.
   */
  datatype Env = Env(now: int, parseIso: string -> Instant, num: string -> Num)

  // ---------------------------------------------------------------------
  // Section scan

  /** `rows[i][0]?.startsWith(prefix)`: an absent first cell never matches. */
  predicate Opens(r: Row, prefix: string) {
    FirstCell(r).Some? && StartsWith(FirstCell(r).value, prefix)
  }

  /** `findSectionIndices(rows, prefix)`: ascending, exactly the rows whose first cell starts with `prefix`. */
  method FindSectionIndices(rows: seq<Row>, prefix: string) returns (out: seq<nat>)
    ensures out == IndicesWhere(rows, (r: Row) => Opens(r, prefix), |rows|)
    ensures forall k :: 0 <= k < |out| ==> out[k] < |rows| && Opens(rows[out[k]], prefix)
    ensures forall k, l :: 0 <= k < l < |out| ==> out[k] < out[l]
    ensures forall i :: 0 <= i < |rows| && Opens(rows[i], prefix) ==> i in out
  {
    out := [];
    for i := 0 to |rows|
      invariant out == IndicesWhere(rows, (r: Row) => Opens(r, prefix), i)
    {
      if FirstCell(rows[i]).Some? && StartsWith(FirstCell(rows[i]).value, prefix) {
        out := out + [i];
      }
    }
    IndicesWhereSound(rows, (r: Row) => Opens(r, prefix), |rows|);
    forall i | 0 <= i < |rows| && Opens(rows[i], prefix) ensures i in out {
      IndicesWhereComplete(rows, (r: Row) => Opens(r, prefix), |rows|, i);
    }
  }

  /** The first row that opens a `Transaktionen` section, searching from `i`. */
  function SectionStartFrom(rows: seq<Row>, i: nat): (s: Option<nat>)
    requires i <= |rows|
    ensures s.Some? ==> i <= s.value < |rows| && Opens(rows[s.value], Marker)
    ensures forall j :: i <= j < |rows| && (s.None? || j < s.value) ==> !Opens(rows[j], Marker)
    decreases |rows| - i
  {
    if i == |rows| then None
    else if Opens(rows[i], Marker) then Some(i)
    else SectionStartFrom(rows, i + 1)
  }

  function SectionStart(rows: seq<Row>): Option<nat> {
    SectionStartFrom(rows, 0)
  }

  /** The first index `findSectionIndices` reports is where the section starts; none reported means no section. */
  lemma StartsGiveSectionStart(rows: seq<Row>, starts: seq<nat>)
    requires starts == IndicesWhere(rows, (r: Row) => Opens(r, Marker), |rows|)
    ensures starts == [] ==> SectionStart(rows).None?
    ensures starts != [] ==> SectionStart(rows) == Some(starts[0])
  {
    IndicesWhereSound(rows, (r: Row) => Opens(r, Marker), |rows|);
    if starts == [] {
      forall j | 0 <= j < |rows| ensures !Opens(rows[j], Marker) {
        IndicesWhereNone(rows, (r: Row) => Opens(r, Marker), |rows|, j);
      }
    } else {
      forall j | 0 <= j < starts[0] ensures !Opens(rows[j], Marker) {
        IndicesWhereFirst(rows, (r: Row) => Opens(r, Marker), |rows|, j);
      }
    }
  }

  // ---------------------------------------------------------------------
  // Flex-Query execution export

  /** The header names a realized-PnL column. */
  predicate LooksLikeFlex(header: Row) {
    "FifoPnlRealized" in header || "Realized P/L" in header
  }

  /** Column positions found by `header.indexOf`; -1 for a missing column. */
  datatype FlexColumns = FlexColumns(date: int, symbol: int, qty: int, fees: int, realized: int, side: int)

  function FlexColumnsOf(header: Row): FlexColumns {
    FlexColumns(
      IndexOf(header, "DateTime"),
      IndexOf(header, "Symbol"),
      IndexOf(header, "Quantity"),
      if IndexOf(header, "IBCommission") > -1 then IndexOf(header, "IBCommission") else IndexOf(header, "IB Commission"),
      if IndexOf(header, "FifoPnlRealized") > -1 then IndexOf(header, "FifoPnlRealized") else IndexOf(header, "Realized P/L"),
      IndexOf(header, "Buy/Sell"))
  }

  /** `side === 'SELL' ? -Math.abs(qty) : Math.abs(qty)`. */
  function SignedQty(qty: Num, side: string): (q: Num)
    ensures q.Fin? <==> qty.Fin?
    ensures q.Fin? ==> (q.val == qty.val || q.val == -qty.val)
    ensures q.Fin? && UppercasesToSell(side) ==> q.val <= 0.0
    ensures q.Fin? && !UppercasesToSell(side) ==> q.val >= 0.0
  {
    if UppercasesToSell(side) then Neg(Abs(qty)) else Abs(qty)
  }

  /**
   * What one data row of the export contributes: nothing for an empty row or
   * an invalid date, otherwise a trade.
   */
  function FlexTrade(r: Row, c: FlexColumns, env: Env): (o: Option<Trade>)
    ensures o.Some? <==> |r| > 0 && ParseIbTime(CellAt(r, c.date), env.now, env.parseIso).At?
    ensures o.Some? ==> o.value.t == ParseIbTime(CellAt(r, c.date), env.now, env.parseIso)
    ensures o.Some? ==> o.value.symbol == CellAt(r, c.symbol)
    ensures o.Some? ==> o.value.qty == SignedQty(env.num(RemoveCommas(Coalesce(CellAt(r, c.qty), ""))), OrElse(CellAt(r, c.side), ""))
    ensures o.Some? ==> o.value.realized == env.num(RemoveCommas(Coalesce(CellAt(r, c.realized), "0")))
    ensures o.Some? ==> o.value.fees == env.num(RemoveCommas(Coalesce(CellAt(r, c.fees), "0")))
  {
    if |r| == 0 then None
    else
      var t := ParseIbTime(CellAt(r, c.date), env.now, env.parseIso);
      if t.Invalid? then None
      else
        var qty := env.num(RemoveCommas(Coalesce(CellAt(r, c.qty), "")));
        var realized := env.num(RemoveCommas(Coalesce(CellAt(r, c.realized), "0")));
        var fees := env.num(RemoveCommas(Coalesce(CellAt(r, c.fees), "0")));
        var side := OrElse(CellAt(r, c.side), "");
        Some(Trade(t, CellAt(r, c.symbol), SignedQty(qty, side), fees, realized))
  }

  function FlexSelect(c: FlexColumns, env: Env): Row -> Option<Trade> {
    (r: Row) => FlexTrade(r, c, env)
  }

  // ---------------------------------------------------------------------
  // German Activity Statement

  /** `Number(c || 0)`: an empty or missing cell is the number 0. */
  function NumberOrZero(c: Cell, env: Env): (n: Num)
    ensures !Truthy(c) ==> n == Fin(0.0)
  {
    if Truthy(c) then env.num(c.value) else Fin(0.0)
  }

  /** The trade a closing data row describes: symbol, date, quantity, fees and realized PnL from columns 4, 5, 6, 9 and 11. */
  function StatementTrade(r: Row, env: Env): Trade {
    Trade(
      ParseIbTime(CellAt(r, 5), env.now, env.parseIso),
      CellAt(r, 4),
      env.num(RemoveCommas(Text(CellAt(r, 6)))),
      NumberOrZero(CellAt(r, 9), env),
      NumberOrZero(CellAt(r, 11), env))
  }

  /** Inside the section, rows with an empty first cell are skipped and only closing data rows count. */
  function StatementSelect(env: Env): Row -> Option<Trade> {
    (r: Row) => if Truthy(FirstCell(r)) && IsClosedDataRow(r) then Some(StatementTrade(r, env)) else None
  }

  // ---------------------------------------------------------------------
  // The whole reconstruction

  /** What `buildClosedTrades` returns, stated as keep-and-convert followed by the date sort. */
  function ClosedTrades(table: Table, env: Env): (r: seq<Trade>)
    ensures table.NotAnArray? ==> r == []
    ensures table.Rows? && |table.rows| == 0 ==> r == []
    ensures (table.Rows? && |table.rows| > 0 && !LooksLikeFlex(table.rows[0])
             && forall i :: 0 <= i < |table.rows| ==> !Opens(table.rows[i], Marker)) ==> r == []
  {
    if table.NotAnArray? || |table.rows| == 0 then []
    else
      var rows := table.rows;
      if LooksLikeFlex(rows[0]) then
        SortByTime(Collect(rows, 1, |rows|, FlexSelect(FlexColumnsOf(rows[0]), env)), TimeOf)
      else
        match SectionStart(rows)
        case None => []
        case Some(s) => SortByTime(Collect(rows, s + 1, SectionEnd(rows, s + 1), StatementSelect(env)), TimeOf)
  }

  method BuildClosedTrades(table: Table, env: Env) returns (trades: seq<Trade>)
    ensures trades == ClosedTrades(table, env)
  {
    if table.NotAnArray? || |table.rows| == 0 {
      return [];
    }
    var rows := table.rows;
    var header := rows[0];
    if "FifoPnlRealized" in header || "Realized P/L" in header {
      var iDate := IndexOf(header, "DateTime");
      var iSymbol := IndexOf(header, "Symbol");
      var iQty := IndexOf(header, "Quantity");
      var iFees := if IndexOf(header, "IBCommission") > -1 then IndexOf(header, "IBCommission") else IndexOf(header, "IB Commission");
      var iReal := if IndexOf(header, "FifoPnlRealized") > -1 then IndexOf(header, "FifoPnlRealized") else IndexOf(header, "Realized P/L");
      var iSide := IndexOf(header, "Buy/Sell");
      trades := ReadFlexRows(rows, FlexColumns(iDate, iSymbol, iQty, iFees, iReal, iSide), env);
      trades := SortByTime(trades, TimeOf);
      return;
    }
    var starts := FindSectionIndices(rows, Marker);
    StartsGiveSectionStart(rows, starts);
    if |starts| == 0 {
      return [];
    }
    var start := starts[0];
    trades := ScanSection(rows, start, StatementSelect(env));
    trades := SortByTime(trades, TimeOf);
  }

  /** The Flex loop of `buildClosedTrades` over the rows after the header, before the sort. */
  method ReadFlexRows(rows: seq<Row>, cols: FlexColumns, env: Env) returns (trades: seq<Trade>)
    requires |rows| > 0
    ensures trades == Collect(rows, 1, |rows|, FlexSelect(cols, env))
  {
    ghost var select := FlexSelect(cols, env);
    trades := [];
    for i := 1 to |rows|
      invariant trades == Collect(rows, 1, i, select)
    {
      var r := rows[i];
      assert select(r) == FlexTrade(r, cols, env);
      if |r| == 0 {
        continue;
      }
      var t := ParseIbTime(CellAt(r, cols.date), env.now, env.parseIso);
      if t.Invalid? {
        continue;
      }
      var qty := env.num(RemoveCommas(Coalesce(CellAt(r, cols.qty), "")));
      var realized := env.num(RemoveCommas(Coalesce(CellAt(r, cols.realized), "0")));
      var fees := env.num(RemoveCommas(Coalesce(CellAt(r, cols.fees), "0")));
      var side := OrElse(CellAt(r, cols.side), "");
      trades := trades + [Trade(t, CellAt(r, cols.symbol), SignedQty(qty, side), fees, realized)];
    }
  }

  // ---------------------------------------------------------------------
  // What the reconstruction guarantees

  /**
   * Flex path, order: at most one trade per row after the header, and every
   * trade has a valid date, in ascending order.
   */
  lemma FlexOrder(rows: seq<Row>, env: Env)
    requires |rows| > 0 && LooksLikeFlex(rows[0])
    ensures |ClosedTrades(Rows(rows), env)| <= |rows| - 1
    ensures Sorted(ClosedTrades(Rows(rows), env), TimeOf)
  {
    var select := FlexSelect(FlexColumnsOf(rows[0]), env);
    var kept := Collect(rows, 1, |rows|, select);
    assert ClosedTrades(Rows(rows), env) == SortByTime(kept, TimeOf);
    SortIsPermutation(kept, TimeOf);
    forall k | 0 <= k < |kept| ensures kept[k].t.At? {
      CollectMembers(rows, 1, |rows|, select, kept[k]);
    }
    SortSorted(kept, TimeOf);
  }

  /**
   * Flex path, contents: the header row is never a trade; each trade comes
   * from a later row that is non-empty and has a valid date (the ensures of
   * `FlexTrade`), and every such row gives its trade.
   */
  lemma FlexMembers(rows: seq<Row>, env: Env, tr: Trade)
    requires |rows| > 0 && LooksLikeFlex(rows[0])
    ensures tr in ClosedTrades(Rows(rows), env) <==>
              exists i :: 1 <= i < |rows| && FlexTrade(rows[i], FlexColumnsOf(rows[0]), env) == Some(tr)
  {
    var select := FlexSelect(FlexColumnsOf(rows[0]), env);
    var kept := Collect(rows, 1, |rows|, select);
    assert ClosedTrades(Rows(rows), env) == SortByTime(kept, TimeOf);
    SortMembers(kept, TimeOf, tr);
    CollectMembers(rows, 1, |rows|, select, tr);
    if exists i :: 1 <= i < |rows| && select(rows[i]) == Some(tr) {
      var i :| 1 <= i < |rows| && select(rows[i]) == Some(tr);
      assert FlexTrade(rows[i], FlexColumnsOf(rows[0]), env) == Some(tr);
    }
    if exists i :: 1 <= i < |rows| && FlexTrade(rows[i], FlexColumnsOf(rows[0]), env) == Some(tr) {
      var i :| 1 <= i < |rows| && FlexTrade(rows[i], FlexColumnsOf(rows[0]), env) == Some(tr);
      assert select(rows[i]) == Some(tr);
    }
  }

  /**
   * Statement path, order: with `s` the first row opening a `Transaktionen`
   * section, there are at most as many trades as rows after `s`, and the
   * trades are ordered as the date comparator leaves them: sorted when every
   * date is valid.
   */
  lemma StatementOrder(rows: seq<Row>, env: Env, s: nat)
    requires |rows| > 0 && !LooksLikeFlex(rows[0])
    requires SectionStart(rows) == Some(s)
    ensures |ClosedTrades(Rows(rows), env)| <= |rows| - s - 1
    ensures Ordered(ClosedTrades(Rows(rows), env), TimeOf)
    ensures AllValid(ClosedTrades(Rows(rows), env), TimeOf) ==> Sorted(ClosedTrades(Rows(rows), env), TimeOf)
  {
    var kept := Collect(rows, s + 1, SectionEnd(rows, s + 1), StatementSelect(env));
    var r := ClosedTrades(Rows(rows), env);
    assert r == SortByTime(kept, TimeOf);
    SortIsPermutation(kept, TimeOf);
    SortOrdered(kept, TimeOf);
    if AllValid(r, TimeOf) {
      OrderedValidIsSorted(r, TimeOf);
    }
  }

  /** A row inside the section is selected exactly when its first cell is the marker and it is a closing data row. */
  lemma StatementSelectInSection(rows: seq<Row>, s: nat, i: nat, env: Env, tr: Trade)
    requires s < |rows| && s < i < SectionEnd(rows, s + 1)
    ensures StatementSelect(env)(rows[i]) == Some(tr) <==>
              FirstCell(rows[i]) == Some(Marker) && IsClosedDataRow(rows[i]) && tr == StatementTrade(rows[i], env)
  {
    SectionEndFirst(rows, s + 1, i);
  }

  /** On a statement table, the result is the date sort of the section's selected rows. */
  lemma StatementKept(rows: seq<Row>, env: Env, s: nat)
    requires |rows| > 0 && !LooksLikeFlex(rows[0])
    requires SectionStart(rows) == Some(s)
    ensures s < |rows|
    ensures ClosedTrades(Rows(rows), env)
            == SortByTime(Collect(rows, s + 1, SectionEnd(rows, s + 1), StatementSelect(env)), TimeOf)
  {
  }

  /** A trade kept from a range of rows comes from one row of that range. */
  lemma KeptFromRow(rows: seq<Row>, lo: nat, hi: nat, select: Row -> Option<Trade>, tr: Trade) returns (i: nat)
    requires lo <= hi <= |rows|
    requires tr in SortByTime(Collect(rows, lo, hi, select), TimeOf)
    ensures lo <= i < hi && select(rows[i]) == Some(tr)
  {
    SortMembers(Collect(rows, lo, hi, select), TimeOf, tr);
    CollectMembers(rows, lo, hi, select, tr);
    i :| lo <= i < hi && select(rows[i]) == Some(tr);
  }

  /** A row of a range that is selected gives a kept trade. */
  lemma RowIsKept(rows: seq<Row>, lo: nat, hi: nat, select: Row -> Option<Trade>, i: nat, tr: Trade)
    requires lo <= i < hi <= |rows|
    requires select(rows[i]) == Some(tr)
    ensures tr in SortByTime(Collect(rows, lo, hi, select), TimeOf)
  {
    CollectMembers(rows, lo, hi, select, tr);
    SortMembers(Collect(rows, lo, hi, select), TimeOf, tr);
  }

  /** Statement path: each trade comes from a closing data row of the section (see `StatementMembers`). */
  lemma StatementMembersSound(rows: seq<Row>, env: Env, s: nat, tr: Trade) returns (i: nat)
    requires |rows| > 0 && !LooksLikeFlex(rows[0])
    requires SectionStart(rows) == Some(s)
    requires tr in ClosedTrades(Rows(rows), env)
    ensures s < |rows| && s < i < SectionEnd(rows, s + 1)
    ensures FirstCell(rows[i]) == Some(Marker) && IsClosedDataRow(rows[i]) && tr == StatementTrade(rows[i], env)
  {
    StatementKept(rows, env, s);
    i := KeptFromRow(rows, s + 1, SectionEnd(rows, s + 1), StatementSelect(env), tr);
    StatementSelectInSection(rows, s, i, env, tr);
  }

  /** Statement path: every closing data row of the section gives its trade (see `StatementMembers`). */
  lemma StatementMembersComplete(rows: seq<Row>, env: Env, s: nat, i: nat)
    requires |rows| > 0 && !LooksLikeFlex(rows[0])
    requires SectionStart(rows) == Some(s)
    requires s < |rows| && s < i < SectionEnd(rows, s + 1)
    requires FirstCell(rows[i]) == Some(Marker) && IsClosedDataRow(rows[i])
    ensures StatementTrade(rows[i], env) in ClosedTrades(Rows(rows), env)
  {
    var tr := StatementTrade(rows[i], env);
    StatementKept(rows, env, s);
    StatementSelectInSection(rows, s, i, env, tr);
    RowIsKept(rows, s + 1, SectionEnd(rows, s + 1), StatementSelect(env), i, tr);
  }

  /**
   * Statement path, contents: with `s` the first row opening a section, the
   * trades are exactly those of the rows after `s`, before the first row
   * whose first cell is non-empty and not exactly the marker, whose first
   * cell is the marker and which are closing data rows.
   */
  lemma StatementMembers(rows: seq<Row>, env: Env, s: nat, tr: Trade)
    requires |rows| > 0 && !LooksLikeFlex(rows[0])
    requires SectionStart(rows) == Some(s)
    ensures tr in ClosedTrades(Rows(rows), env) <==>
              exists i :: s < i < SectionEnd(rows, s + 1)
                          && FirstCell(rows[i]) == Some(Marker) && IsClosedDataRow(rows[i])
                          && tr == StatementTrade(rows[i], env)
  {
    if tr in ClosedTrades(Rows(rows), env) {
      var i := StatementMembersSound(rows, env, s, tr);
    }
    if exists i :: s < i < SectionEnd(rows, s + 1)
                   && FirstCell(rows[i]) == Some(Marker) && IsClosedDataRow(rows[i])
                   && tr == StatementTrade(rows[i], env) {
      var i :| s < i < SectionEnd(rows, s + 1)
               && FirstCell(rows[i]) == Some(Marker) && IsClosedDataRow(rows[i])
               && tr == StatementTrade(rows[i], env);
      StatementMembersComplete(rows, env, s, i);
    }
  }
}
