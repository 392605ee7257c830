/**
 * The chart line both versions draw: points `{ t, v }`, the running total of
 * realized PnL that produces them (`cumulativePnL` in the React application,
 * `rollingSeriesFromTrades` in the older script) and the date filter
 * `points.filter(p => p.t >= start)` both versions apply to them.
 */
module Curve {
  import opened Js
  import opened Folds

  datatype Point = Point(t: Instant, v: Num)

  function PointTime(p: Point): Instant {
    p.t
  }

  // ---------------------------------------------------------------------
  // Running total

  /** `0 + amount(x0) + ... + amount(xn-1)` in floating point: one NaN makes the total NaN. */
  function Total<T>(xs: seq<T>, amount: T -> Num): Num {
    if xs == [] then Fin(0.0) else Add(Total(xs[..|xs| - 1], amount), amount(Last(xs)))
  }

  /** Point `i` has the date of item `i` and the total of items `0..i`. */
  function Running<T>(items: seq<T>, time: T -> Instant, amount: T -> Num): (points: seq<Point>)
    ensures |points| == |items|
  {
    seq(|items|, i requires 0 <= i < |items| => Point(time(items[i]), Total(items[..i + 1], amount)))
  }

  /** `let sum = 0; items.map(x => ({ t: time(x), v: (sum += amount(x)) }))`. */
  method RunningTotal<T>(items: seq<T>, time: T -> Instant, amount: T -> Num) returns (points: seq<Point>)
    ensures points == Running(items, time, amount)
  {
    var sum := Fin(0.0);
    points := [];
    for i := 0 to |items|
      invariant |points| == i
      invariant sum == Total(items[..i], amount)
      invariant forall j :: 0 <= j < i ==> points[j] == Point(time(items[j]), Total(items[..j + 1], amount))
    {
      TakeSnoc(items, i);
      assert items[..i + 1][..i] == items[..i];
      sum := Add(sum, amount(items[i]));
      points := points + [Point(time(items[i]), sum)];
    }
  }

  /** The last point carries the total of all items. */
  lemma RunningLast<T>(items: seq<T>, time: T -> Instant, amount: T -> Num)
    requires |items| > 0
    ensures Last(Running(items, time, amount)) == Point(time(Last(items)), Total(items, amount))
  {
    assert items[..|items|] == items;
  }

  /** Each point adds the next item's amount to the point before. */
  lemma RunningStep<T>(items: seq<T>, time: T -> Instant, amount: T -> Num, i: nat)
    requires 0 < i < |items|
    ensures Running(items, time, amount)[i].v == Add(Running(items, time, amount)[i - 1].v, amount(items[i]))
  {
    assert items[..i + 1][..i] == items[..i];
  }

  /** The total is NaN exactly when some amount is NaN. */
  lemma {:induction false} TotalNaN<T>(xs: seq<T>, amount: T -> Num)
    ensures Total(xs, amount).NaN? <==> exists i :: 0 <= i < |xs| && amount(xs[i]).NaN?
  {
    if xs != [] {
      var xs' := xs[..|xs| - 1];
      TotalNaN(xs', amount);
      if exists i :: 0 <= i < |xs'| && amount(xs'[i]).NaN? {
        var i :| 0 <= i < |xs'| && amount(xs'[i]).NaN?;
        assert xs[i] == xs'[i];
      }
      if exists i :: 0 <= i < |xs| && amount(xs[i]).NaN? {
        var i :| 0 <= i < |xs| && amount(xs[i]).NaN?;
        if i < |xs'| {
          assert xs'[i] == xs[i];
        }
      }
    }
  }

  /** A total that is a number is the sum of the amounts, and equals the `Number(x) || 0` sum. */
  lemma {:induction false} TotalIsSum<T>(xs: seq<T>, amount: T -> Num)
    ensures Total(xs, amount).Fin? ==> Total(xs, amount).val == SumOf(xs, (x: T) => OrZero(amount(x)))
  {
    if xs != [] {
      TotalIsSum(xs[..|xs| - 1], amount);
    }
  }

  // ---------------------------------------------------------------------
  // Date filter

  /** `points.filter(p => p.t >= new Date(start))`: points with an invalid date never pass. */
  function KeepFrom(points: seq<Point>, start: int): (r: seq<Point>)
    ensures |r| <= |points|
  {
    if points == [] then []
    else KeepFrom(points[..|points| - 1], start) + (if AtOrAfter(Last(points).t, At(start)) then [Last(points)] else [])
  }

  /** Kept points are the points dated at or after `start`. */
  lemma {:induction false} KeepFromMembers(points: seq<Point>, start: int, p: Point)
    ensures p in KeepFrom(points, start) <==> p in points && AtOrAfter(p.t, At(start))
  {
    if points != [] {
      var init := points[..|points| - 1];
      KeepFromMembers(init, start, p);
      assert points == init + [Last(points)];
    }
  }

  /** Filtering from a later start after an earlier one is filtering from the later start: the later range is a subsequence. */
  lemma {:induction false} KeepFromNested(points: seq<Point>, early: int, late: int)
    requires early <= late
    ensures KeepFrom(KeepFrom(points, early), late) == KeepFrom(points, late)
  {
    if points != [] {
      var init := points[..|points| - 1];
      var p := Last(points);
      KeepFromNested(init, early, late);
      var inner := KeepFrom(init, early);
      if AtOrAfter(p.t, At(early)) {
        var r := inner + [p];
        assert KeepFrom(points, early) == r;
        assert r[..|r| - 1] == inner;
        assert KeepFrom(r, late) == KeepFrom(inner, late) + (if AtOrAfter(p.t, At(late)) then [p] else []);
      } else {
        assert KeepFrom(points, early) == inner;
      }
    }
  }

  /** Points already all dated at or after `start` pass the filter unchanged. */
  lemma {:induction false} KeepFromAll(points: seq<Point>, start: int)
    requires forall i :: 0 <= i < |points| ==> AtOrAfter(points[i].t, At(start))
    ensures KeepFrom(points, start) == points
  {
    if points != [] {
      KeepFromAll(points[..|points| - 1], start);
    }
  }
}
