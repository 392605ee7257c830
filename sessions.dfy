/**
 * `groupTradesIntoSessions`: closed trades are grouped by symbol (in order of
 * first appearance, as a `Map` iterates), each group is sorted by date and cut
 * into sessions wherever the next trade is not within `gapMinutes` of the
 * previous one. A session carries its first and last date, their difference,
 * the summed realized PnL, fees and quantity (`Number(x) || 0` of each), the
 * net result, the number of fills and a direction read off the summed
 * quantity.
 */
module Sessions {
  import opened Js
  import opened Order
  import opened Folds
  import opened Trades

  datatype Direction = Long | Short

  datatype Session = Session(
    symbol: Cell, start: Instant, end: Instant, duration: Num,
    realized: real, fees: real, net: real, fills: nat,
    direction: Direction, trades: seq<Trade>)

  /** `Number(trade.realized) || 0`, and likewise for the fees and the quantity. */
  function RealizedOf(tr: Trade): real {
    OrZero(tr.realized)
  }

  function FeesOf(tr: Trade): real {
    OrZero(tr.fees)
  }

  function QtyOf(tr: Trade): real {
    OrZero(tr.qty)
  }

  /** `later - earlier <= gapMs` on two dates: false when either is invalid. */
  predicate WithinGap(later: Instant, earlier: Instant, gapMs: int) {
    Minus(later, earlier).Fin? && Minus(later, earlier).val <= gapMs as real
  }

  // ---------------------------------------------------------------------
  // Grouping by symbol

  /** The distinct symbols in order of first appearance: the key order of `bySymbol`. */
  function Keys(ts: seq<Trade>): seq<Cell> {
    if ts == [] then []
    else
      var ks := Keys(ts[..|ts| - 1]);
      if Last(ts).symbol in ks then ks else ks + [Last(ts).symbol]
  }

  /** The trades of one symbol, in input order: the array `bySymbol.get(k)`. */
  function TradesOf(ts: seq<Trade>, k: Cell): seq<Trade> {
    if ts == [] then []
    else TradesOf(ts[..|ts| - 1], k) + (if Last(ts).symbol == k then [Last(ts)] else [])
  }

  // ---------------------------------------------------------------------
  // Cutting one symbol's trades into sessions

  /**
   * The runs the inner loop builds: each trade joins the current run when it
   * is within the gap of the run's last trade and opens a new run otherwise.
   */
  function Clusters(arr: seq<Trade>, gapMs: int): (cs: seq<seq<Trade>>)
    ensures forall k :: 0 <= k < |cs| ==> |cs[k]| > 0
  {
    if arr == [] then []
    else
      var cs := Clusters(arr[..|arr| - 1], gapMs);
      var x := Last(arr);
      if cs != [] && WithinGap(x.t, Last(Last(cs)).t, gapMs) then cs[..|cs| - 1] + [Last(cs) + [x]]
      else cs + [[x]]
  }

  /** The record pushed for a finished run of trades. */
  function SessionOf(symbol: Cell, g: seq<Trade>): Session
    requires |g| > 0
  {
    var realized := SumOf(g, RealizedOf);
    var fees := SumOf(g, FeesOf);
    Session(symbol, g[0].t, Last(g).t, Minus(Last(g).t, g[0].t), realized, fees, realized - fees, |g|,
            if SumOf(g, QtyOf) < 0.0 then Long else Short, g)
  }

  function Summaries(symbol: Cell, cs: seq<seq<Trade>>): (ss: seq<Session>)
    requires forall k :: 0 <= k < |cs| ==> |cs[k]| > 0
    ensures |ss| == |cs|
  {
    if cs == [] then [] else Summaries(symbol, cs[..|cs| - 1]) + [SessionOf(symbol, Last(cs))]
  }

  /** The sessions of one symbol whose trades, already sorted, are `arr`. */
  function SymbolSessions(symbol: Cell, arr: seq<Trade>, gapMs: int): seq<Session> {
    Summaries(symbol, Clusters(arr, gapMs))
  }

  /** The sessions of the symbols `keys`, one symbol after the other. */
  function SessionsFor(keys: seq<Cell>, trades: seq<Trade>, gapMs: int): seq<Session> {
    if keys == [] then []
    else SessionsFor(keys[..|keys| - 1], trades, gapMs)
         + SymbolSessions(Last(keys), SortByTime(TradesOf(trades, Last(keys)), TimeOf), gapMs)
  }

  /** What `groupTradesIntoSessions(trades, gapMinutes)` returns, with `gapMs = gapMinutes * 60 * 1000`. */
  function AllSessions(trades: seq<Trade>, gapMs: int): seq<Session> {
    SessionsFor(Keys(trades), trades, gapMs)
  }

  // ---------------------------------------------------------------------
  // The loops

  /** The first loop: `bySymbol` as its key order and its contents. */
  method GroupBySymbol(trades: seq<Trade>) returns (keys: seq<Cell>, bySymbol: map<Cell, seq<Trade>>)
    ensures keys == Keys(trades)
    ensures forall k :: k in bySymbol <==> k in keys
    ensures forall k :: k in bySymbol ==> bySymbol[k] == TradesOf(trades, k)
  {
    keys := [];
    bySymbol := map[];
    for i := 0 to |trades|
      invariant keys == Keys(trades[..i])
      invariant forall k :: k in bySymbol <==> k in keys
      invariant forall k :: k in bySymbol ==> bySymbol[k] == TradesOf(trades[..i], k)
    {
      var t := trades[i];
      assert trades[..i + 1][..i] == trades[..i];
      if t.symbol !in bySymbol {
        TradesOfAbsent(trades[..i], t.symbol);
        keys := keys + [t.symbol];
        bySymbol := bySymbol[t.symbol := []];
      }
      bySymbol := bySymbol[t.symbol := bySymbol[t.symbol] + [t]];
    }
    assert trades[..|trades|] == trades;
  }

  /** The inner loop over one symbol's sorted trades, with `current` held in local variables. */
  method ClusterSymbol(symbol: Cell, arr: seq<Trade>, gapMs: int) returns (sessions: seq<Session>)
    ensures sessions == SymbolSessions(symbol, arr, gapMs)
  {
    sessions := [];
    // current.trades; empty while `current` is null
    var members: seq<Trade> := [];
    var start, end := Invalid, Invalid;
    var realized, fees, qtySum := 0.0, 0.0, 0.0;
    // the runs already pushed
    ghost var done: seq<seq<Trade>> := [];
    for i := 0 to |arr|
      invariant ClusterLoop(symbol, arr, gapMs, i, sessions, done, members, start, end, realized, fees, qtySum)
    {
      var trade := arr[i];
      if members == [] {
        LoopFirst(symbol, arr, gapMs, i, sessions, done, members, start, end, realized, fees, qtySum);
        members, start, end := [trade], trade.t, trade.t;
        realized, fees, qtySum := OrZero(trade.realized), OrZero(trade.fees), OrZero(trade.qty);
        continue;
      }
      var withinGap := Minus(trade.t, end).Fin? && Minus(trade.t, end).val <= gapMs as real;
      if withinGap {
        LoopExtend(symbol, arr, gapMs, i, sessions, done, members, start, end, realized, fees, qtySum);
        members := members + [trade];
        end := trade.t;
        realized := realized + OrZero(trade.realized);
        fees := fees + OrZero(trade.fees);
        qtySum := qtySum + OrZero(trade.qty);
      } else {
        var duration := Minus(end, start);
        var closed := Session(symbol, start, end, duration, realized, fees, realized - fees, |members|,
                              if qtySum < 0.0 then Long else Short, members);
        TracksSession(symbol, members, start, end, realized, fees, qtySum);
        LoopOpen(symbol, arr, gapMs, i, sessions, done, members, start, end, realized, fees, qtySum);
        sessions := sessions + [closed];
        done := done + [members];
        members, start, end := [trade], trade.t, trade.t;
        realized, fees, qtySum := OrZero(trade.realized), OrZero(trade.fees), OrZero(trade.qty);
      }
    }
    LoopEnd(symbol, arr, gapMs, sessions, done, members, start, end, realized, fees, qtySum);
    if members != [] {
      var duration := Minus(end, start);
      var closed := Session(symbol, start, end, duration, realized, fees, realized - fees, |members|,
                            if qtySum < 0.0 then Long else Short, members);
      TracksSession(symbol, members, start, end, realized, fees, qtySum);
      sessions := sessions + [closed];
    }
  }

  /** `groupTradesIntoSessions(trades, gapMinutes)`. */
  method GroupTradesIntoSessions(trades: seq<Trade>, gapMinutes: int) returns (sessions: seq<Session>)
    ensures sessions == AllSessions(trades, gapMinutes * 60 * 1000)
  {
    var gapMs := gapMinutes * 60 * 1000;
    var keys, bySymbol := GroupBySymbol(trades);
    sessions := [];
    for j := 0 to |keys|
      invariant sessions == SessionsFor(keys[..j], trades, gapMs)
    {
      var symbol := keys[j];
      var arr := SortByTime(bySymbol[symbol], TimeOf);
      var ss := ClusterSymbol(symbol, arr, gapMs);
      TakeSnoc(keys, j);
      SessionsForSnoc(keys[..j], symbol, trades, gapMs);
      sessions := sessions + ss;
    }
    assert keys[..|keys|] == keys;
  }

  // ---------------------------------------------------------------------
  // One step of each loop

  /** The fields of `current` agree with its trades. */
  ghost predicate Tracks(members: seq<Trade>, start: Instant, end: Instant, realized: real, fees: real, qtySum: real) {
    (members != [] ==> start == members[0].t && end == Last(members).t)
    && realized == SumOf(members, RealizedOf) && fees == SumOf(members, FeesOf) && qtySum == SumOf(members, QtyOf)
  }

  lemma TracksOne(x: Trade)
    ensures Tracks([x], x.t, x.t, OrZero(x.realized), OrZero(x.fees), OrZero(x.qty))
  {
    assert [x][..0] == [];
  }

  lemma TracksSnoc(members: seq<Trade>, start: Instant, end: Instant, realized: real, fees: real, qtySum: real, x: Trade)
    requires members != [] && Tracks(members, start, end, realized, fees, qtySum)
    ensures Tracks(members + [x], start, x.t, realized + OrZero(x.realized), fees + OrZero(x.fees), qtySum + OrZero(x.qty))
  {
    assert (members + [x])[..|members|] == members;
  }

  /** The record pushed from the fields of `current` is the session of its trades. */
  lemma TracksSession(symbol: Cell, members: seq<Trade>, start: Instant, end: Instant, realized: real, fees: real, qtySum: real)
    requires members != [] && Tracks(members, start, end, realized, fees, qtySum)
    ensures Session(symbol, start, end, Minus(end, start), realized, fees, realized - fees, |members|,
                    if qtySum < 0.0 then Long else Short, members)
            == SessionOf(symbol, members)
  {
  }

  /**
   * The state of the inner loop after `i` trades: `done` are the runs pushed,
   * `members` the run still open, and the fields of `current` agree with it.
   */
  ghost predicate ClusterLoop(symbol: Cell, arr: seq<Trade>, gapMs: int, i: nat, sessions: seq<Session>,
                              done: seq<seq<Trade>>, members: seq<Trade>,
                              start: Instant, end: Instant, realized: real, fees: real, qtySum: real) {
    i <= |arr|
    && (i == 0 <==> members == [])
    && (i == 0 ==> done == [])
    && (forall k :: 0 <= k < |done| ==> |done[k]| > 0)
    && (i > 0 ==> Clusters(arr[..i], gapMs) == done + [members])
    && sessions == Summaries(symbol, done)
    && Tracks(members, start, end, realized, fees, qtySum)
  }

  /** The first trade opens a run. */
  lemma LoopFirst(symbol: Cell, arr: seq<Trade>, gapMs: int, i: nat, sessions: seq<Session>,
                  done: seq<seq<Trade>>, members: seq<Trade>,
                  start: Instant, end: Instant, realized: real, fees: real, qtySum: real)
    requires i < |arr| && members == []
    requires ClusterLoop(symbol, arr, gapMs, i, sessions, done, members, start, end, realized, fees, qtySum)
    ensures ClusterLoop(symbol, arr, gapMs, i + 1, sessions, done, [arr[i]], arr[i].t, arr[i].t,
                        OrZero(arr[i].realized), OrZero(arr[i].fees), OrZero(arr[i].qty))
  {
    TakeSnoc(arr, i);
    ClustersFirst(arr[..i], arr[i], gapMs);
    TracksOne(arr[i]);
  }

  /** A trade within the gap joins the open run. */
  lemma LoopExtend(symbol: Cell, arr: seq<Trade>, gapMs: int, i: nat, sessions: seq<Session>,
                   done: seq<seq<Trade>>, members: seq<Trade>,
                   start: Instant, end: Instant, realized: real, fees: real, qtySum: real)
    requires i < |arr| && members != [] && WithinGap(arr[i].t, end, gapMs)
    requires ClusterLoop(symbol, arr, gapMs, i, sessions, done, members, start, end, realized, fees, qtySum)
    ensures ClusterLoop(symbol, arr, gapMs, i + 1, sessions, done, members + [arr[i]], start, arr[i].t,
                        realized + OrZero(arr[i].realized), fees + OrZero(arr[i].fees), qtySum + OrZero(arr[i].qty))
  {
    TakeSnoc(arr, i);
    ClustersExtend(arr[..i], arr[i], gapMs, done, members);
    TracksSnoc(members, start, end, realized, fees, qtySum, arr[i]);
  }

  /** A trade outside the gap closes the open run, which is pushed, and opens a new one. */
  lemma LoopOpen(symbol: Cell, arr: seq<Trade>, gapMs: int, i: nat, sessions: seq<Session>,
                 done: seq<seq<Trade>>, members: seq<Trade>,
                 start: Instant, end: Instant, realized: real, fees: real, qtySum: real)
    requires i < |arr| && members != [] && !WithinGap(arr[i].t, end, gapMs)
    requires ClusterLoop(symbol, arr, gapMs, i, sessions, done, members, start, end, realized, fees, qtySum)
    ensures ClusterLoop(symbol, arr, gapMs, i + 1, sessions + [SessionOf(symbol, members)], done + [members],
                        [arr[i]], arr[i].t, arr[i].t, OrZero(arr[i].realized), OrZero(arr[i].fees), OrZero(arr[i].qty))
  {
    TakeSnoc(arr, i);
    SummariesSnoc(symbol, done, members);
    ClustersOpen(arr[..i], arr[i], gapMs, done, members);
    TracksOne(arr[i]);
  }

  /** After the last trade, pushing the open run (if any) gives the sessions of all runs. */
  lemma LoopEnd(symbol: Cell, arr: seq<Trade>, gapMs: int, sessions: seq<Session>,
                done: seq<seq<Trade>>, members: seq<Trade>,
                start: Instant, end: Instant, realized: real, fees: real, qtySum: real)
    requires ClusterLoop(symbol, arr, gapMs, |arr|, sessions, done, members, start, end, realized, fees, qtySum)
    ensures members == [] ==> sessions == SymbolSessions(symbol, arr, gapMs)
    ensures members != [] ==> sessions + [SessionOf(symbol, members)] == SymbolSessions(symbol, arr, gapMs)
  {
    assert arr[..|arr|] == arr;
    if members != [] {
      SummariesSnoc(symbol, done, members);
    }
  }

  lemma SummariesSnoc(symbol: Cell, cs: seq<seq<Trade>>, g: seq<Trade>)
    requires forall k :: 0 <= k < |cs| ==> |cs[k]| > 0
    requires |g| > 0
    ensures Summaries(symbol, cs + [g]) == Summaries(symbol, cs) + [SessionOf(symbol, g)]
  {
    assert (cs + [g])[..|cs|] == cs;
  }

  lemma SessionsForSnoc(keys: seq<Cell>, k: Cell, trades: seq<Trade>, gapMs: int)
    ensures SessionsFor(keys + [k], trades, gapMs)
            == SessionsFor(keys, trades, gapMs) + SymbolSessions(k, SortByTime(TradesOf(trades, k), TimeOf), gapMs)
  {
    assert (keys + [k])[..|keys|] == keys;
  }

  lemma ClustersFirst(arr: seq<Trade>, x: Trade, gapMs: int)
    requires arr == []
    ensures Clusters(arr + [x], gapMs) == [[x]]
  {
    assert (arr + [x])[..|arr|] == arr;
  }

  /** A trade within the gap of the current run's last trade joins that run. */
  lemma ClustersExtend(arr: seq<Trade>, x: Trade, gapMs: int, done: seq<seq<Trade>>, g: seq<Trade>)
    requires Clusters(arr, gapMs) == done + [g] && |g| > 0
    requires WithinGap(x.t, Last(g).t, gapMs)
    ensures Clusters(arr + [x], gapMs) == done + [g + [x]]
  {
    assert (arr + [x])[..|arr|] == arr;
    assert (done + [g])[..|done|] == done;
  }

  /** A trade outside the gap opens a new run. */
  lemma ClustersOpen(arr: seq<Trade>, x: Trade, gapMs: int, done: seq<seq<Trade>>, g: seq<Trade>)
    requires Clusters(arr, gapMs) == done + [g] && |g| > 0
    requires !WithinGap(x.t, Last(g).t, gapMs)
    ensures Clusters(arr + [x], gapMs) == done + [g] + [[x]]
  {
    assert (arr + [x])[..|arr|] == arr;
  }

  // ---------------------------------------------------------------------
  // Facts about the runs

  /** The runs, concatenated, give back the trades: each trade is in exactly one run, in order. */
  lemma {:induction false} ClustersFlatten(arr: seq<Trade>, gapMs: int)
    ensures Flatten(Clusters(arr, gapMs)) == arr
  {
    if arr != [] {
      var arr', x := arr[..|arr| - 1], Last(arr);
      assert arr == arr' + [x];
      var cs := Clusters(arr', gapMs);
      ClustersFlatten(arr', gapMs);
      if cs != [] && WithinGap(x.t, Last(Last(cs)).t, gapMs) {
        var done, g := cs[..|cs| - 1], Last(cs);
        assert cs == done + [g];
        ClustersExtend(arr', x, gapMs, done, g);
        FlattenSnoc(done, g);
        FlattenSnoc(done, g + [x]);
      } else {
        FlattenSnoc(cs, [x]);
      }
    }
  }

  /** Consecutive trades of a run are within the gap of each other. */
  ghost predicate Chained(g: seq<Trade>, gapMs: int) {
    forall i, j :: 0 <= i < j < |g| && j == i + 1 ==> WithinGap(g[j].t, g[i].t, gapMs)
  }

  /** The first trade of each run is not within the gap of the last trade of the run before. */
  ghost predicate Separated(cs: seq<seq<Trade>>, gapMs: int) {
    forall k, l :: 0 <= k < l < |cs| && l == k + 1 && |cs[k]| > 0 && |cs[l]| > 0 ==>
      !WithinGap(cs[l][0].t, Last(cs[k]).t, gapMs)
  }

  /** What the runs are, stated without the loop: non-empty, covering `arr` in order, chained inside, separated between. */
  ghost predicate IsSplit(cs: seq<seq<Trade>>, arr: seq<Trade>, gapMs: int) {
    Flatten(cs) == arr
    && (forall k :: 0 <= k < |cs| ==> |cs[k]| > 0 && Chained(cs[k], gapMs))
    && Separated(cs, gapMs)
  }

  lemma ChainedSnoc(g: seq<Trade>, x: Trade, gapMs: int)
    requires |g| > 0 && Chained(g, gapMs) && WithinGap(x.t, Last(g).t, gapMs)
    ensures Chained(g + [x], gapMs)
  {
    var g' := g + [x];
    forall i, j | 0 <= i < j < |g'| && j == i + 1
      ensures WithinGap(g'[j].t, g'[i].t, gapMs)
    {
      if j < |g| {
        assert g'[i] == g[i] && g'[j] == g[j];
      }
    }
  }

  /** Inside each run of the inner loop, consecutive trades are within the gap. */
  lemma {:induction false} ClustersChained(arr: seq<Trade>, gapMs: int)
    ensures forall k :: 0 <= k < |Clusters(arr, gapMs)| ==> Chained(Clusters(arr, gapMs)[k], gapMs)
  {
    if arr != [] {
      var arr' := arr[..|arr| - 1];
      var cs := Clusters(arr', gapMs);
      ClustersChained(arr', gapMs);
      var x := Last(arr);
      if cs != [] && WithinGap(x.t, Last(Last(cs)).t, gapMs) {
        var cs': seq<seq<Trade>> := cs[..|cs| - 1] + [Last(cs) + [x]];
        ChainedSnoc(Last(cs), x, gapMs);
        forall k | 0 <= k < |cs'|
          ensures Chained(cs'[k], gapMs)
        {
          if k < |cs| - 1 {
            assert cs'[k] == cs[k];
          }
        }
      } else {
        var cs': seq<seq<Trade>> := cs + [[x]];
        forall k | 0 <= k < |cs'|
          ensures Chained(cs'[k], gapMs)
        {
          if k < |cs| {
            assert cs'[k] == cs[k];
          }
        }
      }
    }
  }

  /** Between two runs of the inner loop, the gap is exceeded (or a date is invalid). */
  lemma {:induction false} ClustersSeparated(arr: seq<Trade>, gapMs: int)
    ensures Separated(Clusters(arr, gapMs), gapMs)
  {
    if arr != [] {
      var arr' := arr[..|arr| - 1];
      var cs := Clusters(arr', gapMs);
      ClustersSeparated(arr', gapMs);
      var x := Last(arr);
      if cs != [] && WithinGap(x.t, Last(Last(cs)).t, gapMs) {
        var cs': seq<seq<Trade>> := cs[..|cs| - 1] + [Last(cs) + [x]];
        forall k, l | 0 <= k < l < |cs'| && l == k + 1 && |cs'[k]| > 0 && |cs'[l]| > 0
          ensures !WithinGap(cs'[l][0].t, Last(cs'[k]).t, gapMs)
        {
          assert cs'[k] == cs[k];
          assert cs'[l][0] == cs[l][0];
        }
      } else {
        var cs': seq<seq<Trade>> := cs + [[x]];
        forall k, l | 0 <= k < l < |cs'| && l == k + 1 && |cs'[k]| > 0 && |cs'[l]| > 0
          ensures !WithinGap(cs'[l][0].t, Last(cs'[k]).t, gapMs)
        {
          assert cs'[k] == cs[k];
          if l < |cs| {
            assert cs'[l] == cs[l];
          }
        }
      }
    }
  }

  /** The runs of the inner loop are a split of the trades in the sense of `IsSplit`. */
  lemma ClustersSplit(arr: seq<Trade>, gapMs: int)
    ensures IsSplit(Clusters(arr, gapMs), arr, gapMs)
  {
    ClustersFlatten(arr, gapMs);
    ClustersChained(arr, gapMs);
    ClustersSeparated(arr, gapMs);
  }

  /** Dropping the last trade of a split whose last run has several trades leaves a split. */
  lemma SplitDropTrade(cs: seq<seq<Trade>>, arr: seq<Trade>, gapMs: int)
    requires IsSplit(cs, arr, gapMs) && cs != [] && |Last(cs)| > 1
    ensures IsSplit(cs[..|cs| - 1] + [Last(cs)[..|Last(cs)| - 1]], arr[..|arr| - 1], gapMs)
  {
    var g := Last(cs);
    var g' := g[..|g| - 1];
    var cs' := cs[..|cs| - 1] + [g'];
    assert cs'[..|cs'| - 1] == cs[..|cs| - 1];
    assert Flatten(cs) == Flatten(cs[..|cs| - 1]) + g;
    assert g == g' + [Last(g)];
    assert Flatten(cs') == Flatten(cs[..|cs| - 1]) + g';
    forall k | 0 <= k < |cs'|
      ensures |cs'[k]| > 0 && Chained(cs'[k], gapMs)
    {
      if k < |cs| - 1 {
        assert cs'[k] == cs[k];
      } else {
        assert Chained(g, gapMs);
        forall i, j | 0 <= i < j < |g'| && j == i + 1
          ensures WithinGap(g'[j].t, g'[i].t, gapMs)
        {
          assert g'[i] == g[i] && g'[j] == g[j];
        }
      }
    }
    forall k, l | 0 <= k < l < |cs'| && l == k + 1 && |cs'[k]| > 0 && |cs'[l]| > 0
      ensures !WithinGap(cs'[l][0].t, Last(cs'[k]).t, gapMs)
    {
      assert cs'[k] == cs[k];
      assert cs'[l][0] == cs[l][0];
    }
  }

  /** Dropping a last run of one trade leaves a split of the rest. */
  lemma SplitDropRun(cs: seq<seq<Trade>>, arr: seq<Trade>, gapMs: int)
    requires IsSplit(cs, arr, gapMs) && cs != [] && |Last(cs)| == 1
    ensures IsSplit(cs[..|cs| - 1], arr[..|arr| - 1], gapMs)
  {
    var cs' := cs[..|cs| - 1];
    assert Flatten(cs) == Flatten(cs') + Last(cs);
    assert Flatten(cs') == arr[..|arr| - 1];
    forall k | 0 <= k < |cs'|
      ensures |cs'[k]| > 0 && Chained(cs'[k], gapMs)
    {
      assert cs'[k] == cs[k];
    }
    forall k, l | 0 <= k < l < |cs'| && l == k + 1 && |cs'[k]| > 0 && |cs'[l]| > 0
      ensures !WithinGap(cs'[l][0].t, Last(cs'[k]).t, gapMs)
    {
      assert cs'[k] == cs[k] && cs'[l] == cs[l];
    }
  }

  /** A split of no trades has no runs; a split of some trades ends with their last trade. */
  lemma SplitEnds(cs: seq<seq<Trade>>, arr: seq<Trade>, gapMs: int)
    requires IsSplit(cs, arr, gapMs)
    ensures arr == [] <==> cs == []
    ensures arr != [] ==> |Last(cs)| > 0 && Last(Last(cs)) == Last(arr)
  {
    if cs != [] {
      assert Flatten(cs) == Flatten(cs[..|cs| - 1]) + Last(cs);
    }
  }

  /** Conversely, a split in the sense of `IsSplit` is the one the loop computes: the cut points are forced. */
  lemma {:induction false} SplitIsClusters(cs: seq<seq<Trade>>, arr: seq<Trade>, gapMs: int)
    requires IsSplit(cs, arr, gapMs)
    ensures cs == Clusters(arr, gapMs)
    decreases |arr|
  {
    SplitEnds(cs, arr, gapMs);
    if arr != [] {
      var arr' := arr[..|arr| - 1];
      var g := Last(cs);
      if |g| > 1 {
        var cs' := cs[..|cs| - 1] + [g[..|g| - 1]];
        SplitDropTrade(cs, arr, gapMs);
        SplitIsClusters(cs', arr', gapMs);
        SplitJoin(cs, arr, gapMs);
      } else {
        var cs' := cs[..|cs| - 1];
        SplitDropRun(cs, arr, gapMs);
        SplitIsClusters(cs', arr', gapMs);
        SplitOpen(cs, arr, gapMs);
      }
    }
  }

  /** When the rest of a split is the loop's runs, a last run of several trades is the loop's joining of the last trade. */
  lemma SplitJoin(cs: seq<seq<Trade>>, arr: seq<Trade>, gapMs: int)
    requires IsSplit(cs, arr, gapMs) && cs != [] && |Last(cs)| > 1
    requires cs[..|cs| - 1] + [Last(cs)[..|Last(cs)| - 1]] == Clusters(arr[..|arr| - 1], gapMs)
    ensures cs == Clusters(arr, gapMs)
  {
    SplitEnds(cs, arr, gapMs);
    var arr', x := arr[..|arr| - 1], Last(arr);
    var g := Last(cs);
    var g' := g[..|g| - 1];
    assert arr == arr' + [x];
    assert Chained(g, gapMs);
    assert Last(g') == g[|g| - 2];
    assert WithinGap(g[|g| - 1].t, g[|g| - 2].t, gapMs);
    ClustersExtend(arr', x, gapMs, cs[..|cs| - 1], g');
    assert g' + [x] == g;
    assert cs == cs[..|cs| - 1] + [g];
  }

  /** When the rest of a split is the loop's runs, a last run of one trade is the loop's opening of a run. */
  lemma SplitOpen(cs: seq<seq<Trade>>, arr: seq<Trade>, gapMs: int)
    requires IsSplit(cs, arr, gapMs) && cs != [] && |Last(cs)| == 1
    requires IsSplit(cs[..|cs| - 1], arr[..|arr| - 1], gapMs)
    requires cs[..|cs| - 1] == Clusters(arr[..|arr| - 1], gapMs)
    ensures cs == Clusters(arr, gapMs)
  {
    SplitEnds(cs, arr, gapMs);
    var arr', x := arr[..|arr| - 1], Last(arr);
    var cs' := cs[..|cs| - 1];
    SplitEnds(cs', arr', gapMs);
    assert arr == arr' + [x];
    assert Last(cs) == [x];
    if cs' == [] {
      ClustersFirst(arr', x, gapMs);
      assert cs == [[x]];
    } else {
      assert cs' == cs'[..|cs'| - 1] + [Last(cs')];
      assert Separated(cs, gapMs);
      assert !WithinGap(cs[|cs| - 1][0].t, Last(cs[|cs| - 2]).t, gapMs);
      ClustersOpen(arr', x, gapMs, cs'[..|cs'| - 1], Last(cs'));
      assert cs == cs' + [[x]];
    }
  }

  /** Runs cut from date-ordered trades are date-ordered. */
  lemma {:induction false} ClustersOrdered(arr: seq<Trade>, gapMs: int)
    requires Ordered(arr, TimeOf)
    ensures forall k :: 0 <= k < |Clusters(arr, gapMs)| ==> Ordered(Clusters(arr, gapMs)[k], TimeOf)
  {
    if arr != [] {
      var arr' := arr[..|arr| - 1];
      var cs := Clusters(arr', gapMs);
      var x := Last(arr);
      OrderedDropLast(arr, TimeOf);
      ClustersOrdered(arr', gapMs);
      if cs != [] && WithinGap(x.t, Last(Last(cs)).t, gapMs) {
        var g := Last(cs);
        ClustersFlatten(arr', gapMs);
        FlattenLast(cs);
        assert Last(g) == arr[|arr| - 2];
        OrderedSnoc(g, x, TimeOf);
        var cs' := cs[..|cs| - 1] + [g + [x]];
        forall k | 0 <= k < |cs'|
          ensures Ordered(cs'[k], TimeOf)
        {
          if k < |cs| - 1 {
            assert cs'[k] == cs[k];
          }
        }
      } else {
        var cs': seq<seq<Trade>> := cs + [[x]];
        OrderedSnoc([], x, TimeOf);
        forall k | 0 <= k < |cs'|
          ensures Ordered(cs'[k], TimeOf)
        {
          if k < |cs| {
            assert cs'[k] == cs[k];
          } else {
            assert cs'[k] == [] + [x];
          }
        }
      }
    }
  }

  // ---------------------------------------------------------------------
  // Grouping facts

  /** A symbol that does not occur has no trades. */
  lemma {:induction false} TradesOfAbsent(ts: seq<Trade>, k: Cell)
    requires k !in Keys(ts)
    ensures TradesOf(ts, k) == []
  {
    if ts != [] {
      TradesOfAbsent(ts[..|ts| - 1], k);
    }
  }

  /** A symbol is listed exactly when some trade carries it. */
  lemma {:induction false} KeysMembers(ts: seq<Trade>, k: Cell)
    ensures k in Keys(ts) <==> exists i :: 0 <= i < |ts| && ts[i].symbol == k
  {
    if ts != [] {
      var ts' := ts[..|ts| - 1];
      KeysMembers(ts', k);
      if k in Keys(ts') {
        var i :| 0 <= i < |ts'| && ts'[i].symbol == k;
        assert ts[i] == ts'[i];
      }
      if exists i :: 0 <= i < |ts| && ts[i].symbol == k {
        var i :| 0 <= i < |ts| && ts[i].symbol == k;
        if i < |ts'| {
          assert ts'[i] == ts[i];
        }
      }
    }
  }

  /** No symbol is listed twice. */
  lemma {:induction false} KeysDistinct(ts: seq<Trade>)
    ensures Distinct(Keys(ts))
  {
    if ts != [] {
      KeysDistinct(ts[..|ts| - 1]);
    }
  }

  /** The trades of a symbol with one more trade. */
  lemma TradesOfSnoc(ts: seq<Trade>, x: Trade, k: Cell)
    ensures TradesOf(ts + [x], k) == TradesOf(ts, k) + (if x.symbol == k then [x] else [])
  {
    assert (ts + [x])[..|ts|] == ts;
  }

  /** The trades of a symbol are the trades that carry it. */
  lemma {:induction false} TradesOfMembers(ts: seq<Trade>, k: Cell, tr: Trade)
    ensures tr in TradesOf(ts, k) <==> tr in ts && tr.symbol == k
  {
    if ts != [] {
      var ts' := ts[..|ts| - 1];
      TradesOfMembers(ts', k, tr);
      assert ts == ts' + [Last(ts)];
    }
  }

  // ---------------------------------------------------------------------
  // The sessions, as a whole

  /** The trades of the sessions, one session after the other. */
  function SessionTrades(ss: seq<Session>): seq<Trade> {
    if ss == [] then [] else SessionTrades(ss[..|ss| - 1]) + Last(ss).trades
  }

  /** The sessions of one symbol, in order. */
  function OfSymbol(ss: seq<Session>, k: Cell): seq<Session> {
    if ss == [] then []
    else OfSymbol(ss[..|ss| - 1], k) + (if Last(ss).symbol == k then [Last(ss)] else [])
  }

  lemma {:induction false} SessionTradesAppend(a: seq<Session>, b: seq<Session>)
    ensures SessionTrades(a + b) == SessionTrades(a) + SessionTrades(b)
    decreases |b|
  {
    if b == [] {
      assert a + b == a;
    } else {
      assert (a + b)[..|a + b| - 1] == a + b[..|b| - 1];
      SessionTradesAppend(a, b[..|b| - 1]);
    }
  }

  lemma {:induction false} OfSymbolAppend(a: seq<Session>, b: seq<Session>, k: Cell)
    ensures OfSymbol(a + b, k) == OfSymbol(a, k) + OfSymbol(b, k)
    decreases |b|
  {
    if b == [] {
      assert a + b == a;
    } else {
      assert (a + b)[..|a + b| - 1] == a + b[..|b| - 1];
      OfSymbolAppend(a, b[..|b| - 1], k);
    }
  }

  lemma SummariesAt(symbol: Cell, cs: seq<seq<Trade>>, i: nat)
    requires forall k :: 0 <= k < |cs| ==> |cs[k]| > 0
    requires i < |cs|
    ensures Summaries(symbol, cs)[i] == SessionOf(symbol, cs[i])
    decreases |cs|
  {
    if i < |cs| - 1 {
      SummariesAt(symbol, cs[..|cs| - 1], i);
    }
  }

  lemma {:induction false} SummariesTrades(symbol: Cell, cs: seq<seq<Trade>>)
    requires forall k :: 0 <= k < |cs| ==> |cs[k]| > 0
    ensures SessionTrades(Summaries(symbol, cs)) == Flatten(cs)
  {
    if cs != [] {
      var cs' := cs[..|cs| - 1];
      SummariesTrades(symbol, cs');
      SessionTradesAppend(Summaries(symbol, cs'), [SessionOf(symbol, Last(cs))]);
      assert SessionTrades([SessionOf(symbol, Last(cs))]) == Last(cs) by {
        assert [SessionOf(symbol, Last(cs))][..0] == [];
      }
    }
  }

  lemma {:induction false} SummariesOfSymbol(symbol: Cell, cs: seq<seq<Trade>>, k: Cell)
    requires forall j :: 0 <= j < |cs| ==> |cs[j]| > 0
    ensures OfSymbol(Summaries(symbol, cs), k) == if symbol == k then Summaries(symbol, cs) else []
  {
    if cs != [] {
      var cs' := cs[..|cs| - 1];
      SummariesOfSymbol(symbol, cs', k);
      OfSymbolAppend(Summaries(symbol, cs'), [SessionOf(symbol, Last(cs))], k);
      assert [SessionOf(symbol, Last(cs))][..0] == [];
    }
  }

  /** The sessions of one symbol carry, together, exactly that symbol's sorted trades. */
  lemma SymbolSessionsTrades(symbol: Cell, arr: seq<Trade>, gapMs: int)
    ensures SessionTrades(SymbolSessions(symbol, arr, gapMs)) == arr
  {
    SummariesTrades(symbol, Clusters(arr, gapMs));
    ClustersFlatten(arr, gapMs);
  }

  lemma {:induction false} SessionsForOfSymbol(keys: seq<Cell>, trades: seq<Trade>, gapMs: int, k: Cell)
    requires Distinct(keys)
    ensures OfSymbol(SessionsFor(keys, trades, gapMs), k)
            == if k in keys then SymbolSessions(k, SortByTime(TradesOf(trades, k), TimeOf), gapMs) else []
  {
    if keys != [] {
      var keys' := keys[..|keys| - 1];
      var key := Last(keys);
      assert keys == keys' + [key];
      assert Distinct(keys');
      SessionsForOfSymbol(keys', trades, gapMs, k);
      var prev := SessionsFor(keys', trades, gapMs);
      var block := SymbolSessions(key, SortByTime(TradesOf(trades, key), TimeOf), gapMs);
      assert SessionsFor(keys, trades, gapMs) == prev + block;
      OfSymbolAppend(prev, block, k);
      SummariesOfSymbol(key, Clusters(SortByTime(TradesOf(trades, key), TimeOf), gapMs), k);
      if k == key {
        assert k !in keys';
        assert OfSymbol(prev, k) == [];
        assert OfSymbol(prev + block, k) == block;
      } else {
        assert k in keys <==> k in keys';
        assert OfSymbol(prev + block, k) == OfSymbol(prev, k) + [];
        assert OfSymbol(prev, k) + [] == OfSymbol(prev, k);
      }
    }
  }

  /**
   * Per symbol, the sessions partition the trades: concatenating the trades
   * of one symbol's sessions, in order, gives that symbol's trades sorted by
   * date, each exactly once.
   */
  lemma SessionsPartitionSymbol(trades: seq<Trade>, gapMs: int, k: Cell)
    ensures SessionTrades(OfSymbol(AllSessions(trades, gapMs), k)) == SortByTime(TradesOf(trades, k), TimeOf)
  {
    KeysDistinct(trades);
    SessionsForOfSymbol(Keys(trades), trades, gapMs, k);
    if k in Keys(trades) {
      SymbolSessionsTrades(k, SortByTime(TradesOf(trades, k), TimeOf), gapMs);
    } else {
      TradesOfAbsent(trades, k);
    }
  }

  /** Per symbol, the next session starts more than the gap after the previous one ended (or a date is invalid). */
  lemma SessionsApart(trades: seq<Trade>, gapMs: int, k: Cell, i: nat)
    requires i + 1 < |OfSymbol(AllSessions(trades, gapMs), k)|
    ensures !WithinGap(OfSymbol(AllSessions(trades, gapMs), k)[i + 1].start,
                       OfSymbol(AllSessions(trades, gapMs), k)[i].end, gapMs)
  {
    KeysDistinct(trades);
    SessionsForOfSymbol(Keys(trades), trades, gapMs, k);
    RunsApart(k, SortByTime(TradesOf(trades, k), TimeOf), gapMs, i);
  }

  /** Consecutive sessions of one symbol's runs are more than the gap apart. */
  lemma RunsApart(symbol: Cell, arr: seq<Trade>, gapMs: int, i: nat)
    requires i + 1 < |SymbolSessions(symbol, arr, gapMs)|
    ensures !WithinGap(SymbolSessions(symbol, arr, gapMs)[i + 1].start, SymbolSessions(symbol, arr, gapMs)[i].end, gapMs)
  {
    var cs := Clusters(arr, gapMs);
    SummariesAt(symbol, cs, i);
    SummariesAt(symbol, cs, i + 1);
    ClustersSeparated(arr, gapMs);
    assert !WithinGap(cs[i + 1][0].t, Last(cs[i]).t, gapMs);
  }

  /** The fields of a session agree with its trades. */
  ghost predicate Aggregates(s: Session) {
    |s.trades| > 0
    && s.fills == |s.trades|
    && s.start == s.trades[0].t && s.end == Last(s.trades).t
    && s.duration == Minus(s.end, s.start)
    && s.realized == SumOf(s.trades, RealizedOf)
    && s.fees == SumOf(s.trades, FeesOf)
    && s.net == s.realized - s.fees
    && (s.direction == Long <==> SumOf(s.trades, QtyOf) < 0.0)
  }

  /** What every session satisfies. */
  ghost predicate WellFormed(s: Session, gapMs: int) {
    Aggregates(s)
    && Chained(s.trades, gapMs)
    && Ordered(s.trades, TimeOf)
    && forall i :: 0 <= i < |s.trades| ==> s.trades[i].symbol == s.symbol
  }

  lemma SymbolSessionsWellFormed(symbol: Cell, arr: seq<Trade>, gapMs: int, i: nat)
    requires Ordered(arr, TimeOf)
    requires forall j :: 0 <= j < |arr| ==> arr[j].symbol == symbol
    requires i < |SymbolSessions(symbol, arr, gapMs)|
    ensures WellFormed(SymbolSessions(symbol, arr, gapMs)[i], gapMs)
  {
    var cs := Clusters(arr, gapMs);
    SummariesAt(symbol, cs, i);
    ClustersChained(arr, gapMs);
    ClustersOrdered(arr, gapMs);
    ClustersFlatten(arr, gapMs);
    forall j | 0 <= j < |cs[i]|
      ensures cs[i][j].symbol == symbol
    {
      FlattenMembers(cs, i, cs[i][j]);
    }
  }

  lemma {:induction false} SessionsForWellFormed(keys: seq<Cell>, trades: seq<Trade>, gapMs: int, i: nat)
    requires i < |SessionsFor(keys, trades, gapMs)|
    ensures WellFormed(SessionsFor(keys, trades, gapMs)[i], gapMs)
  {
    var keys' := keys[..|keys| - 1];
    var key := Last(keys);
    var before := SessionsFor(keys', trades, gapMs);
    if i < |before| {
      SessionsForWellFormed(keys', trades, gapMs, i);
    } else {
      var arr := SortByTime(TradesOf(trades, key), TimeOf);
      SortOrdered(TradesOf(trades, key), TimeOf);
      forall j | 0 <= j < |arr|
        ensures arr[j].symbol == key
      {
        SortMembers(TradesOf(trades, key), TimeOf, arr[j]);
        TradesOfMembers(trades, key, arr[j]);
      }
      SymbolSessionsWellFormed(key, arr, gapMs, i - |before|);
    }
  }

  /**
   * Every session has at least one fill, its dates are its first and last
   * trade's, its sums are over its trades, `net = realized - fees`, the
   * direction is `Long` exactly when the summed quantity is negative; its
   * trades share its symbol, are in date order and chained within the gap.
   */
  lemma SessionsWellFormed(trades: seq<Trade>, gapMs: int, i: nat)
    requires i < |AllSessions(trades, gapMs)|
    ensures WellFormed(AllSessions(trades, gapMs)[i], gapMs)
  {
    SessionsForWellFormed(Keys(trades), trades, gapMs, i);
  }

  /** A session whose start is a valid date has a duration, and it is not negative. */
  lemma SessionDuration(s: Session, gapMs: int)
    requires WellFormed(s, gapMs) && s.start.At?
    ensures s.duration.Fin? && s.duration.val >= 0.0
  {
    var g := s.trades;
    if |g| > 1 {
      forall j | 0 <= j < |g|
        ensures TimeOf(g[j]).At?
      {
        if j + 1 < |g| {
          assert WithinGap(g[j + 1].t, g[j].t, gapMs);
        } else {
          assert WithinGap(g[j].t, g[j - 1].t, gapMs);
        }
      }
      OrderedValidIsSorted(g, TimeOf);
      assert TimeOf(g[0]).ms <= TimeOf(g[|g| - 1]).ms;
    }
  }

  // ---------------------------------------------------------------------
  // Conservation

  /** The multiset union of the trades of the listed symbols. */
  ghost function GroupsMultiset(keys: seq<Cell>, ts: seq<Trade>): multiset<Trade> {
    if keys == [] then multiset{} else GroupsMultiset(keys[..|keys| - 1], ts) + multiset(TradesOf(ts, Last(keys)))
  }

  lemma {:induction false} GroupsSnoc(keys: seq<Cell>, ts: seq<Trade>, x: Trade)
    requires Distinct(keys)
    ensures GroupsMultiset(keys, ts + [x])
            == GroupsMultiset(keys, ts) + (if x.symbol in keys then multiset{x} else multiset{})
  {
    if keys != [] {
      var keys' := keys[..|keys| - 1];
      assert keys == keys' + [Last(keys)];
      assert Distinct(keys');
      GroupsSnoc(keys', ts, x);
      TradesOfSnoc(ts, x, Last(keys));
      if x.symbol == Last(keys) {
        assert x.symbol !in keys';
      }
    }
  }

  lemma {:induction false} GroupsCover(ts: seq<Trade>)
    ensures GroupsMultiset(Keys(ts), ts) == multiset(ts)
  {
    if ts != [] {
      var ts' := ts[..|ts| - 1];
      var x := Last(ts);
      assert ts == ts' + [x];
      GroupsCover(ts');
      KeysDistinct(ts');
      GroupsSnoc(Keys(ts'), ts', x);
      if x.symbol !in Keys(ts') {
        var keys := Keys(ts') + [x.symbol];
        assert keys[..|keys| - 1] == Keys(ts');
        TradesOfAbsent(ts', x.symbol);
        TradesOfSnoc(ts', x, x.symbol);
      }
    }
  }

  lemma {:induction false} SessionsForTrades(keys: seq<Cell>, trades: seq<Trade>, gapMs: int)
    ensures multiset(SessionTrades(SessionsFor(keys, trades, gapMs))) == GroupsMultiset(keys, trades)
  {
    if keys != [] {
      var keys' := keys[..|keys| - 1];
      var key := Last(keys);
      SessionsForTrades(keys', trades, gapMs);
      var arr := SortByTime(TradesOf(trades, key), TimeOf);
      SessionTradesAppend(SessionsFor(keys', trades, gapMs), SymbolSessions(key, arr, gapMs));
      SymbolSessionsTrades(key, arr, gapMs);
      SortIsPermutation(TradesOf(trades, key), TimeOf);
    }
  }

  /** Across all symbols, every trade is in exactly one session. */
  lemma SessionsConserveTrades(trades: seq<Trade>, gapMs: int)
    ensures multiset(SessionTrades(AllSessions(trades, gapMs))) == multiset(trades)
  {
    SessionsForTrades(Keys(trades), trades, gapMs);
    GroupsCover(trades);
  }

  function SessionRealized(s: Session): real {
    s.realized
  }

  function SessionFees(s: Session): real {
    s.fees
  }

  lemma {:induction false} SessionSums(ss: seq<Session>)
    requires forall i :: 0 <= i < |ss| ==> Aggregates(ss[i])
    ensures SumOf(ss, SessionRealized) == SumOf(SessionTrades(ss), RealizedOf)
    ensures SumOf(ss, SessionFees) == SumOf(SessionTrades(ss), FeesOf)
  {
    if ss != [] {
      var ss' := ss[..|ss| - 1];
      SessionSums(ss');
      assert Aggregates(Last(ss));
      SumAppend(SessionTrades(ss'), Last(ss).trades, RealizedOf);
      SumAppend(SessionTrades(ss'), Last(ss).trades, FeesOf);
    }
  }

  /** The sessions' realized PnL and fees add up to those of all trades (`Number(x) || 0` each). */
  lemma SessionsConserveSums(trades: seq<Trade>, gapMs: int)
    ensures SumOf(AllSessions(trades, gapMs), SessionRealized) == SumOf(trades, RealizedOf)
    ensures SumOf(AllSessions(trades, gapMs), SessionFees) == SumOf(trades, FeesOf)
  {
    var ss := AllSessions(trades, gapMs);
    forall i | 0 <= i < |ss|
      ensures Aggregates(ss[i])
    {
      SessionsWellFormed(trades, gapMs, i);
    }
    SessionSums(ss);
    SessionsConserveTrades(trades, gapMs);
    SumPermutation(SessionTrades(ss), trades, RealizedOf);
    SumPermutation(SessionTrades(ss), trades, FeesOf);
  }

  /**
   * A long round trip of one symbol, bought and then sold five minutes
   * later: one session with both fills, realized 30, fees 2, net 28. The
   * signed quantities cancel, so the summed quantity is not negative and the
   * direction is `Short`.
   */
  lemma RoundTripIsShort(t0: int)
    ensures
      var a := Trade(At(t0), Some("AAA"), Fin(100.0), Fin(1.0), Fin(50.0));
      var b := Trade(At(t0 + 300000), Some("AAA"), Fin(-100.0), Fin(1.0), Fin(-20.0));
      AllSessions([a, b], 15 * 60 * 1000)
      == [Session(Some("AAA"), At(t0), At(t0 + 300000), Fin(300000.0), 30.0, 2.0, 28.0, 2, Short, [a, b])]
  {
    var a := Trade(At(t0), Some("AAA"), Fin(100.0), Fin(1.0), Fin(50.0));
    var b := Trade(At(t0 + 300000), Some("AAA"), Fin(-100.0), Fin(1.0), Fin(-20.0));
    PairOneSymbol(a, b);
    PairInOrder(a, b);
    PairOneRun(a, b, 900000);
    OneRunSessions([a, b], a.symbol, 900000);
    PairSum(a, b, RealizedOf);
    PairSum(a, b, FeesOf);
    PairSum(a, b, QtyOf);
  }

  lemma PairOneSymbol(a: Trade, b: Trade)
    requires a.symbol == b.symbol
    ensures Keys([a, b]) == [a.symbol] && TradesOf([a, b], a.symbol) == [a, b]
  {
    assert [a, b][..1] == [a] && [a][..0] == [];
    assert Keys([a]) == [a.symbol];
    assert TradesOf([a], a.symbol) == [a];
  }

  lemma PairInOrder(a: Trade, b: Trade)
    requires a.t.At? && b.t.At? && a.t.ms <= b.t.ms
    ensures SortByTime([a, b], TimeOf) == [a, b]
  {
    assert [a, b][..1] == [a] && [a][..0] == [];
    assert SortByTime([a], TimeOf) == [a];
  }

  lemma PairOneRun(a: Trade, b: Trade, gapMs: int)
    requires WithinGap(b.t, a.t, gapMs)
    ensures Clusters([a, b], gapMs) == [[a, b]]
  {
    assert [a, b][..1] == [a] && [a][..0] == [];
    assert Clusters([a], gapMs) == [[a]];
    assert [[a]][..0] == [] && [a] + [b] == [a, b];
  }

  lemma PairSum(a: Trade, b: Trade, f: Trade -> real)
    ensures SumOf([a, b], f) == f(a) + f(b)
  {
    assert [a, b][..1] == [a] && [a][..0] == [];
    assert SumOf([a], f) == f(a);
  }

  /** Trades of one symbol, already in order and forming one run, give one session. */
  lemma OneRunSessions(ts: seq<Trade>, k: Cell, gapMs: int)
    requires |ts| > 0 && Keys(ts) == [k] && TradesOf(ts, k) == ts
    requires SortByTime(ts, TimeOf) == ts && Clusters(ts, gapMs) == [ts]
    ensures AllSessions(ts, gapMs) == [SessionOf(k, ts)]
  {
    assert [k][..0] == [] && [ts][..0] == [];
    assert Summaries(k, [ts]) == [SessionOf(k, ts)];
    assert SymbolSessions(k, ts, gapMs) == [SessionOf(k, ts)];
    assert SessionsFor([k], ts, gapMs) == [] + SymbolSessions(k, SortByTime(TradesOf(ts, k), TimeOf), gapMs);
  }
}
