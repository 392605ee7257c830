/**
 * The chart data of the React application (`useSeries`): the cumulative
 * realized PnL of the closed trades, cut to the chosen range relative to
 * "now", and resampled to one point per hour, day or week bucket; and the
 * profit and loss totals shown beside it.
 *
 * date-fns' `startOfHour`, `startOfDay`, `startOfWeek` (weeks starting on
 * Monday) and `startOfMonth` depend on the local time zone and are a
 * parameter (`Calendar`), with the three properties the model relies on: the
 * start of a bucket is not after the date, is its own bucket start, and is
 * monotone in the date.
 */
module Series {
  import opened Js
  import opened Order
  import opened Folds
  import opened Curve
  import opened Trades
  import opened Sessions

  // ---------------------------------------------------------------------
  // Cumulative PnL

  function TradeRealized(tr: Trade): Num {
    tr.realized
  }

  /** `cumulativePnL(trades)`: point `i` is trade `i`'s date and the running sum of `realized`. */
  method CumulativePnL(trades: seq<Trade>) returns (points: seq<Point>)
    ensures points == Running(trades, TimeOf, TradeRealized)
    ensures |points| == |trades|
    ensures forall i :: 0 <= i < |trades| ==> points[i].t == trades[i].t
  {
    points := RunningTotal(trades, TimeOf, TradeRealized);
    forall i | 0 <= i < |trades|
      ensures points[i].t == trades[i].t
    {
      assert points[i] == Point(TimeOf(trades[i]), Total(trades[..i + 1], TradeRealized));
    }
  }

  // ---------------------------------------------------------------------
  // Range

  const HourMs := 60 * 60 * 1000
  const DayMs := 24 * HourMs

  /** The start of the range: 24 hours, 7 days, or 30 days (any other key) before now. */
  function RangeStart(range: string, now: int): (s: int)
    ensures s < now
    ensures range == "24h" ==> s == now - DayMs
    ensures range == "1w" ==> s == now - 7 * DayMs
    ensures range != "24h" && range != "1w" ==> s == now - 30 * DayMs
  {
    if range == "24h" then now - DayMs
    else if range == "1w" then now - 7 * DayMs
    else now - 30 * DayMs
  }

  /** `range === 'all' ? base : base.filter(p => p.t >= start)`. */
  function InRange(base: seq<Point>, range: string, now: int): seq<Point> {
    if range == "all" then base else KeepFrom(base, RangeStart(range, now))
  }

  /**
   * `'all'` keeps every point; another key keeps, in order, the points dated
   * at or after its start; a shorter range keeps a subsequence of a longer
   * one.
   */
  lemma InRangeMembers(base: seq<Point>, range: string, now: int, p: Point)
    ensures range == "all" ==> InRange(base, range, now) == base
    ensures range != "all" ==>
              (p in InRange(base, range, now) <==> p in base && AtOrAfter(p.t, At(RangeStart(range, now))))
  {
    if range != "all" {
      KeepFromMembers(base, RangeStart(range, now), p);
    }
  }

  lemma InRangeNested(base: seq<Point>, now: int, other: string)
    requires other != "all" && other != "24h" && other != "1w"
    ensures InRange(base, "24h", now) == KeepFrom(InRange(base, "1w", now), RangeStart("24h", now))
    ensures InRange(base, "1w", now) == KeepFrom(InRange(base, other, now), RangeStart("1w", now))
  {
    KeepFromNested(base, RangeStart("1w", now), RangeStart("24h", now));
    KeepFromNested(base, RangeStart(other, now), RangeStart("1w", now));
  }

  // ---------------------------------------------------------------------
  // Grain

  datatype Grain = Hour | Day | Week | Month

  const ThreeMonthsMs := 90 * DayMs

  /** `inRange.length ? last.t - first.t : 0`. */
  function Span(points: seq<Point>): Num {
    if |points| > 0 then Minus(Last(points).t, points[0].t) else Fin(0.0)
  }

  /** `getGrainForSpan`: hours for the 24-hour range, weeks beyond 90 days, days otherwise. */
  function GrainForSpan(range: string, span: Num): (g: Grain)
    ensures g != Month
  {
    if range == "24h" then Hour
    else if span.Fin? && span.val > ThreeMonthsMs as real then Week
    else Day
  }

  /**
   * The 24-hour range always uses hours, whatever the span; otherwise weeks
   * exactly when the span exceeds 90 days (a span of exactly 90 days, or a NaN
   * span, gives days).
   */
  lemma GrainChoice(range: string, span: Num)
    ensures GrainForSpan(range, span) == Hour <==> range == "24h"
    ensures GrainForSpan(range, span) == Week <==> range != "24h" && span.Fin? && span.val > ThreeMonthsMs as real
    ensures GrainForSpan(range, span) == Day <==> range != "24h" && !(span.Fin? && span.val > ThreeMonthsMs as real)
  {
  }

  /** A longer span never gives a finer grain. */
  lemma GrainMonotone(range: string, a: real, b: real)
    requires a <= b
    ensures GrainForSpan(range, Fin(a)) == Week ==> GrainForSpan(range, Fin(b)) == Week
  {
  }

  // ---------------------------------------------------------------------
  // Buckets

  /** date-fns' start-of functions, on milliseconds. */
  datatype Calendar = Calendar(hour: int -> int, day: int -> int, week: int -> int, month: int -> int)

  /** A bucket start is not after the date, is its own bucket start, and grows with the date. */
  ghost predicate IsFloor(f: int -> int) {
    (forall t :: f(t) <= t && f(f(t)) == f(t))
    && (forall a, b :: a <= b ==> f(a) <= f(b))
  }

  ghost predicate ValidCalendar(cal: Calendar) {
    IsFloor(cal.hour) && IsFloor(cal.day) && IsFloor(cal.week) && IsFloor(cal.month)
  }

  function FloorOf(cal: Calendar, g: Grain): int -> int {
    match g
    case Hour => cal.hour
    case Week => cal.week
    case Month => cal.month
    case Day => cal.day
  }

  /** `startOfBucket(date, grain)`: an invalid date stays invalid. */
  function StartOfBucket(t: Instant, g: Grain, cal: Calendar): (b: Instant)
    ensures b.At? <==> t.At?
  {
    if t.At? then At(FloorOf(cal, g)(t.ms)) else Invalid
  }

  lemma BucketProperties(t: Instant, u: Instant, g: Grain, cal: Calendar)
    requires ValidCalendar(cal) && t.At? && u.At?
    ensures StartOfBucket(t, g, cal).ms <= t.ms
    ensures StartOfBucket(StartOfBucket(t, g, cal), g, cal) == StartOfBucket(t, g, cal)
    ensures t.ms <= u.ms ==> StartOfBucket(t, g, cal).ms <= StartOfBucket(u, g, cal).ms
  {
    var f := FloorOf(cal, g);
    assert IsFloor(f);
    assert f(t.ms) <= t.ms && f(f(t.ms)) == f(t.ms);
  }

  // ---------------------------------------------------------------------
  // Resampling

  /**
   * The `Map` from bucket start to point: its keys in insertion order (the
   * order `values()` returns them) and its entries.
   */
  datatype Buckets = Buckets(keys: seq<Instant>, slots: map<Instant, Point>)

  /**
   * One iteration of the resampling loop: a point opens its bucket, or replaces
   * the stored point when it is later than the stored point's date (`prev.t <
   * p.t`). The stored point carries the bucket start as its date.
   */
  function Place(bs: Buckets, p: Point, g: Grain, cal: Calendar): Buckets {
    var b := StartOfBucket(p.t, g, cal);
    if b !in bs.slots then Buckets(bs.keys + [b], bs.slots[b := Point(b, p.v)])
    else if Later(p.t, bs.slots[b].t) then Buckets(bs.keys, bs.slots[b := Point(b, p.v)])
    else bs
  }

  /** The map after the loop has visited every point of `series`. */
  function Bucketed(series: seq<Point>, g: Grain, cal: Calendar): Buckets {
    if series == [] then Buckets([], map[]) else Place(Bucketed(series[..|series| - 1], g, cal), Last(series), g, cal)
  }

  /** `bucketToPoint.values()`: the entries, in key order. */
  function Values(keys: seq<Instant>, slots: map<Instant, Point>): (vs: seq<Point>)
    ensures |vs| <= |keys|
  {
    if keys == [] then []
    else Values(keys[..|keys| - 1], slots) + (if Last(keys) in slots then [slots[Last(keys)]] else [])
  }

  /** `resampleSeries(series, grain)`. */
  function Resample(series: seq<Point>, g: Grain, cal: Calendar): seq<Point> {
    if |series| == 0 then series
    else
      var bs := Bucketed(series, g, cal);
      SortByTime(Values(bs.keys, bs.slots), PointTime)
  }

  method ResampleSeries(series: seq<Point>, g: Grain, cal: Calendar) returns (out: seq<Point>)
    ensures out == Resample(series, g, cal)
  {
    if |series| == 0 {
      return series;
    }
    var keys: seq<Instant> := [];
    var slots: map<Instant, Point> := map[];
    for i := 0 to |series|
      invariant Buckets(keys, slots) == Bucketed(series[..i], g, cal)
    {
      var p := series[i];
      var bucket := StartOfBucket(p.t, g, cal);
      if bucket !in slots || Later(p.t, slots[bucket].t) {
        if bucket !in slots {
          keys := keys + [bucket];
        }
        slots := slots[bucket := Point(bucket, p.v)];
      }
      assert series[..i + 1][..i] == series[..i];
    }
    assert series[..|series|] == series;
    out := SortByTime(Values(keys, slots), PointTime);
  }

  /** The keys are distinct, are exactly the map's domain, and each entry is dated at its own key. */
  ghost predicate WellFormed(bs: Buckets) {
    Distinct(bs.keys)
    && (forall k :: k in bs.slots <==> k in bs.keys)
    && (forall k :: k in bs.slots ==> bs.slots[k].t == k)
  }

  lemma {:induction false} BucketedWellFormed(series: seq<Point>, g: Grain, cal: Calendar)
    ensures WellFormed(Bucketed(series, g, cal))
    ensures |Bucketed(series, g, cal).keys| <= |series|
  {
    if series != [] {
      var bs := Bucketed(series[..|series| - 1], g, cal);
      BucketedWellFormed(series[..|series| - 1], g, cal);
      var b := StartOfBucket(Last(series).t, g, cal);
      if b !in bs.slots {
        var keys := bs.keys + [b];
        forall i, j | 0 <= i < j < |keys| ensures keys[i] != keys[j] {
          if j < |bs.keys| {
            assert keys[i] == bs.keys[i] && keys[j] == bs.keys[j];
          } else {
            assert keys[i] == bs.keys[i];
          }
        }
      }
    }
  }

  /** For well-formed buckets, the values are the entries of the keys, one per key. */
  lemma {:induction false} ValuesOfKeys(keys: seq<Instant>, slots: map<Instant, Point>)
    requires forall k :: k in keys ==> k in slots
    ensures |Values(keys, slots)| == |keys|
    ensures forall i :: 0 <= i < |keys| ==> Values(keys, slots)[i] == slots[keys[i]]
  {
    if keys != [] {
      var init := keys[..|keys| - 1];
      assert forall k :: k in init ==> k in keys;
      ValuesOfKeys(init, slots);
      assert Last(keys) in keys;
    }
  }

  /** Point `i` of `series` falls into bucket `b`. */
  ghost predicate InBucket(series: seq<Point>, i: int, b: Instant, g: Grain, cal: Calendar)
    requires 0 <= i < |series|
  {
    StartOfBucket(series[i].t, g, cal) == b
  }

  /**
   * Point `j` is the one whose value bucket `b` holds: the last point of the
   * bucket dated after the bucket start, or, when no point of the bucket is,
   * the first point of the bucket.
   */
  ghost predicate Keeps(series: seq<Point>, j: int, b: Instant, g: Grain, cal: Calendar) {
    0 <= j < |series| && InBucket(series, j, b, g, cal)
    && ((Later(series[j].t, b)
         && forall k :: j < k < |series| && InBucket(series, k, b, g, cal) ==> !Later(series[k].t, b))
        || ((forall k :: 0 <= k < j ==> !InBucket(series, k, b, g, cal))
            && forall k :: 0 <= k < |series| && InBucket(series, k, b, g, cal) ==> !Later(series[k].t, b)))
  }

  /** At most one point is kept per bucket. */
  lemma KeepsUnique(series: seq<Point>, j1: int, j2: int, b: Instant, g: Grain, cal: Calendar)
    requires Keeps(series, j1, b, g, cal) && Keeps(series, j2, b, g, cal)
    ensures j1 == j2
  {
  }

  /** A point outside bucket `b`, or one not after its start, leaves the kept point of `b` where it was. */
  lemma KeepsExtend(series: seq<Point>, j: int, b: Instant, g: Grain, cal: Calendar)
    requires |series| > 0 && Keeps(series[..|series| - 1], j, b, g, cal)
    requires InBucket(series, |series| - 1, b, g, cal) ==> !Later(Last(series).t, b)
    ensures Keeps(series, j, b, g, cal)
  {
    var init := series[..|series| - 1];
    var n := |init|;
    assert init[j] == series[j];
    if Later(init[j].t, b) && forall k :: j < k < n && InBucket(init, k, b, g, cal) ==> !Later(init[k].t, b) {
      forall k | j < k < |series| && InBucket(series, k, b, g, cal)
        ensures !Later(series[k].t, b)
      {
        if k < n {
          assert init[k] == series[k];
          assert InBucket(init, k, b, g, cal);
        }
      }
    } else {
      forall k | 0 <= k < j
        ensures !InBucket(series, k, b, g, cal)
      {
        assert init[k] == series[k];
        assert !InBucket(init, k, b, g, cal);
      }
      forall k | 0 <= k < |series| && InBucket(series, k, b, g, cal)
        ensures !Later(series[k].t, b)
      {
        if k < n {
          assert init[k] == series[k];
          assert InBucket(init, k, b, g, cal);
        }
      }
    }
  }

  /** The newest point of a bucket is kept when it is after the bucket start or opens the bucket. */
  lemma KeepsNewest(series: seq<Point>, b: Instant, g: Grain, cal: Calendar)
    requires |series| > 0 && InBucket(series, |series| - 1, b, g, cal)
    requires Later(Last(series).t, b)
             || forall i :: 0 <= i < |series| - 1 ==> !InBucket(series, i, b, g, cal)
    ensures Keeps(series, |series| - 1, b, g, cal)
  {
  }

  /** A point adds its own bucket to the map's domain and nothing else. */
  lemma PlaceDomain(series: seq<Point>, g: Grain, cal: Calendar, k: Instant)
    requires |series| > 0
    ensures k in Bucketed(series, g, cal).slots <==>
              k in Bucketed(series[..|series| - 1], g, cal).slots || k == StartOfBucket(Last(series).t, g, cal)
  {
  }

  /** The map has an entry for every bucket some point falls into and no other. */
  lemma {:induction false} BucketedDomain(series: seq<Point>, g: Grain, cal: Calendar, b: Instant)
    ensures b in Bucketed(series, g, cal).slots <==> exists i :: 0 <= i < |series| && InBucket(series, i, b, g, cal)
  {
    if series != [] {
      var n := |series| - 1;
      var init := series[..n];
      BucketedDomain(init, g, cal, b);
      PlaceDomain(series, g, cal, b);
      if b in Bucketed(series, g, cal).slots {
        if b in Bucketed(init, g, cal).slots {
          var i :| 0 <= i < n && InBucket(init, i, b, g, cal);
          assert init[i] == series[i];
          assert InBucket(series, i, b, g, cal);
        } else {
          assert InBucket(series, n, b, g, cal);
        }
      }
      if exists i :: 0 <= i < |series| && InBucket(series, i, b, g, cal) {
        var i :| 0 <= i < |series| && InBucket(series, i, b, g, cal);
        if i < n {
          assert init[i] == series[i];
          assert InBucket(init, i, b, g, cal);
        }
      }
    }
  }

  /** Each entry is the bucket start with the value of the point `Keeps` names. */
  lemma {:induction false} BucketedSlots(series: seq<Point>, g: Grain, cal: Calendar, b: Instant)
    requires b in Bucketed(series, g, cal).slots
    ensures exists j :: Keeps(series, j, b, g, cal) && Bucketed(series, g, cal).slots[b] == Point(b, series[j].v)
  {
    var n := |series| - 1;
    var init := series[..n];
    var p := series[n];
    var bs := Bucketed(init, g, cal);
    var bp := StartOfBucket(p.t, g, cal);
    if b in bs.slots {
      BucketedSlots(init, g, cal, b);
      var j :| Keeps(init, j, b, g, cal) && bs.slots[b] == Point(b, init[j].v);
      if bp == b && Later(p.t, b) {
        KeepsNewest(series, b, g, cal);
      } else {
        KeepsExtend(series, j, b, g, cal);
        assert init[j] == series[j];
      }
    } else {
      BucketedDomain(init, g, cal, b);
      PlaceDomain(series, g, cal, b);
      forall i | 0 <= i < n ensures !InBucket(series, i, b, g, cal) {
        assert init[i] == series[i];
        assert !InBucket(init, i, b, g, cal);
      }
      KeepsNewest(series, b, g, cal);
    }
  }

  /**
   * The resampled series holds one point per bucket some input point falls
   * into: dated at the bucket start, with the value of the point `Keeps`
   * names.
   */
  lemma ResampleMembers(series: seq<Point>, g: Grain, cal: Calendar, q: Point)
    ensures q in Resample(series, g, cal) <==> exists j :: Keeps(series, j, q.t, g, cal) && q.v == series[j].v
  {
    if series != [] {
      var bs := Bucketed(series, g, cal);
      BucketedWellFormed(series, g, cal);
      ValuesOfKeys(bs.keys, bs.slots);
      var vs := Values(bs.keys, bs.slots);
      SortMembers(vs, PointTime, q);
      if q in vs {
        var i :| 0 <= i < |vs| && vs[i] == q;
        assert bs.keys[i] in bs.keys;
        BucketedSlots(series, g, cal, bs.keys[i]);
      }
      if exists j :: Keeps(series, j, q.t, g, cal) && q.v == series[j].v {
        var j :| Keeps(series, j, q.t, g, cal) && q.v == series[j].v;
        BucketedDomain(series, g, cal, q.t);
        BucketedSlots(series, g, cal, q.t);
        var j' :| Keeps(series, j', q.t, g, cal) && bs.slots[q.t] == Point(q.t, series[j'].v);
        KeepsUnique(series, j, j', q.t, g, cal);
        var i :| 0 <= i < |bs.keys| && bs.keys[i] == q.t;
        assert vs[i] == q;
      }
    }
  }

  /**
   * The output is no longer than the input, its dates are distinct and in
   * order, and they are all valid (so ascending) when the input's are.
   */
  lemma ResampleShape(series: seq<Point>, g: Grain, cal: Calendar)
    ensures |Resample(series, g, cal)| <= |series|
    ensures Ordered(Resample(series, g, cal), PointTime)
    ensures forall i, j :: 0 <= i < j < |Resample(series, g, cal)| ==>
              Resample(series, g, cal)[i].t != Resample(series, g, cal)[j].t
    ensures AllValid(series, PointTime) ==> Sorted(Resample(series, g, cal), PointTime)
  {
    var r := Resample(series, g, cal);
    if series != [] {
      var bs := Bucketed(series, g, cal);
      BucketedWellFormed(series, g, cal);
      ValuesOfKeys(bs.keys, bs.slots);
      var vs := Values(bs.keys, bs.slots);
      SortIsPermutation(vs, PointTime);
      SortOrdered(vs, PointTime);
      assert Distinct(vs) by {
        forall i, j | 0 <= i < j < |vs| ensures vs[i] != vs[j] {
          assert bs.keys[i] in bs.keys && bs.keys[j] in bs.keys;
          assert vs[i].t == bs.keys[i] && vs[j].t == bs.keys[j];
        }
      }
      PermutationDistinct(vs, r);
      forall i, j | 0 <= i < j < |r| ensures r[i].t != r[j].t {
        if r[i].t == r[j].t {
          ResampleMembers(series, g, cal, r[i]);
          ResampleMembers(series, g, cal, r[j]);
          var ji :| Keeps(series, ji, r[i].t, g, cal) && r[i].v == series[ji].v;
          var jj :| Keeps(series, jj, r[j].t, g, cal) && r[j].v == series[jj].v;
          KeepsUnique(series, ji, jj, r[i].t, g, cal);
          assert false;
        }
      }
      if AllValid(series, PointTime) {
        forall i | 0 <= i < |r| ensures r[i].t.At? {
          ResampleMembers(series, g, cal, r[i]);
          var j :| Keeps(series, j, r[i].t, g, cal) && r[i].v == series[j].v;
          assert series[j].t.At?;
        }
        OrderedValidIsSorted(r, PointTime);
      }
    }
  }

  /**
   * Points with distinct dates, each on its own bucket start, each open a
   * bucket of their own: the map's values are the points, in input order.
   */
  lemma {:induction false} BucketedOfStarts(s: seq<Point>, g: Grain, cal: Calendar)
    requires forall i :: 0 <= i < |s| ==> StartOfBucket(s[i].t, g, cal) == s[i].t
    requires forall i, j :: 0 <= i < j < |s| ==> s[i].t != s[j].t
    ensures |Bucketed(s, g, cal).keys| == |s|
    ensures forall i :: 0 <= i < |s| ==> Bucketed(s, g, cal).keys[i] == s[i].t
    ensures forall i :: 0 <= i < |s| ==>
              s[i].t in Bucketed(s, g, cal).slots && Bucketed(s, g, cal).slots[s[i].t] == s[i]
  {
    if s != [] {
      var n := |s| - 1;
      var init := s[..n];
      BucketedOfStarts(init, g, cal);
      var bs := Bucketed(init, g, cal);
      var p := s[n];
      assert StartOfBucket(p.t, g, cal) == p.t;
      assert p.t !in bs.slots by {
        BucketedDomain(init, g, cal, p.t);
        forall i | 0 <= i < n ensures !InBucket(init, i, p.t, g, cal) {
          assert init[i] == s[i];
        }
      }
      assert Bucketed(s, g, cal) == Buckets(bs.keys + [p.t], bs.slots[p.t := Point(p.t, p.v)]);
      forall i | 0 <= i < n ensures s[i].t != p.t && init[i] == s[i] {
      }
    }
  }

  /** Resampling a resampled series changes nothing. */
  lemma ResampleIdempotent(series: seq<Point>, g: Grain, cal: Calendar)
    requires ValidCalendar(cal)
    ensures Resample(Resample(series, g, cal), g, cal) == Resample(series, g, cal)
  {
    var r := Resample(series, g, cal);
    if r != [] {
      ResampleShape(series, g, cal);
      forall i | 0 <= i < |r| ensures StartOfBucket(r[i].t, g, cal) == r[i].t {
        ResampleMembers(series, g, cal, r[i]);
        var j :| Keeps(series, j, r[i].t, g, cal) && r[i].v == series[j].v;
        if series[j].t.At? {
          BucketProperties(series[j].t, series[j].t, g, cal);
        }
      }
      BucketedOfStarts(r, g, cal);
      var bs := Bucketed(r, g, cal);
      ValuesOfKeys(bs.keys, bs.slots);
      assert Values(bs.keys, bs.slots) == r;
      SortOfOrdered(r, PointTime);
    }
  }

  /** A bucket whose last point is after the bucket start holds that point's value, in any input order. */
  lemma ResampleLastValue(series: seq<Point>, g: Grain, cal: Calendar, b: Instant, last: nat)
    requires last < |series| && InBucket(series, last, b, g, cal) && Later(series[last].t, b)
    requires forall k :: last < k < |series| ==> !InBucket(series, k, b, g, cal)
    ensures Point(b, series[last].v) in Resample(series, g, cal)
  {
    assert Keeps(series, last, b, g, cal);
    ResampleMembers(series, g, cal, Point(b, series[last].v));
  }

  /** A bucket none of whose points is after the bucket start holds the value of its first point. */
  lemma ResampleFirstValue(series: seq<Point>, g: Grain, cal: Calendar, b: Instant, first: nat)
    requires first < |series| && InBucket(series, first, b, g, cal)
    requires forall k :: 0 <= k < first ==> !InBucket(series, k, b, g, cal)
    requires forall k :: 0 <= k < |series| && InBucket(series, k, b, g, cal) ==> !Later(series[k].t, b)
    ensures Point(b, series[first].v) in Resample(series, g, cal)
  {
    assert Keeps(series, first, b, g, cal);
    ResampleMembers(series, g, cal, Point(b, series[first].v));
  }

  /**
   * For an input in ascending date order, a bucket holds the value of its last
   * point, unless that point sits exactly at the bucket start: then every
   * point of the bucket does, and the bucket holds its first point's value.
   */
  lemma ResampleSortedValue(series: seq<Point>, g: Grain, cal: Calendar, b: Instant, first: nat, last: nat)
    requires ValidCalendar(cal) && Sorted(series, PointTime)
    requires first <= last < |series| && InBucket(series, first, b, g, cal) && InBucket(series, last, b, g, cal)
    requires forall k :: 0 <= k < first ==> !InBucket(series, k, b, g, cal)
    requires forall k :: last < k < |series| ==> !InBucket(series, k, b, g, cal)
    ensures series[last].t != b ==> Point(b, series[last].v) in Resample(series, g, cal)
    ensures series[last].t == b ==> Point(b, series[first].v) in Resample(series, g, cal)
  {
    var t := series[last].t;
    BucketProperties(t, t, g, cal);
    if t != b {
      ResampleLastValue(series, g, cal, b, last);
    } else {
      forall k | 0 <= k < |series| && InBucket(series, k, b, g, cal) ensures !Later(series[k].t, b) {
        if k < last {
          BucketProperties(series[k].t, t, g, cal);
          assert series[k].t.ms <= t.ms;
        }
      }
      ResampleFirstValue(series, g, cal, b, first);
    }
  }

  /**
   * Two points both exactly at an hour's start: the hour keeps the first
   * value, not the last, because the later point is not later than the stored
   * bucket start.
   */
  lemma ResampleTieKeepsFirst(h: int, cal: Calendar)
    requires cal.hour(h) == h
    ensures Resample([Point(At(h), Fin(1.0)), Point(At(h), Fin(2.0))], Hour, cal) == [Point(At(h), Fin(1.0))]
  {
    var series := [Point(At(h), Fin(1.0)), Point(At(h), Fin(2.0))];
    var s1 := [series[0]];
    assert series[..1] == s1 && s1[..0] == [];
    assert StartOfBucket(At(h), Hour, cal) == At(h);
    assert Bucketed([], Hour, cal) == Buckets([], map[]);
    assert Last(s1) == series[0];
    var one := Bucketed(s1, Hour, cal);
    assert one == Place(Buckets([], map[]), series[0], Hour, cal);
    assert one == Buckets([At(h)], map[At(h) := Point(At(h), Fin(1.0))]);
    assert Bucketed(series, Hour, cal) == Place(one, series[1], Hour, cal) == one;
    assert [At(h)][..0] == [];
    var vs := Values(one.keys, one.slots);
    assert vs == [Point(At(h), Fin(1.0))];
    assert vs[..0] == [] && SortByTime([], PointTime) == [];
    assert SortByTime(vs, PointTime) == Insert([], vs[0], PointTime) == vs;
  }

  // ---------------------------------------------------------------------
  // The chart series

  /**
   * `useSeries(rows, MODE.PNL, range)`: no rows give no points; otherwise the
   * cumulative PnL of the closed trades, cut to the range and resampled at
   * the grain its span calls for.
   */
  function SeriesOf(rows: Option<Table>, range: string, env: Env, cal: Calendar): seq<Point> {
    if rows.None? then []
    else
      var inRange := InRange(Running(ClosedTrades(rows.value, env), TimeOf, TradeRealized), range, env.now);
      Resample(inRange, GrainForSpan(range, Span(inRange)), cal)
  }

  method UseSeries(rows: Option<Table>, range: string, env: Env, cal: Calendar) returns (series: seq<Point>)
    ensures series == SeriesOf(rows, range, env, cal)
  {
    if rows.None? {
      return [];
    }
    var trades := BuildClosedTrades(rows.value, env);
    var base := CumulativePnL(trades);
    var inRange := InRange(base, range, env.now);
    var grain := GrainForSpan(range, Span(inRange));
    series := ResampleSeries(inRange, grain, cal);
  }

  /** The chart never has more points than there are closed trades, and its dates are distinct and in order. */
  lemma SeriesShape(rows: Table, range: string, env: Env, cal: Calendar)
    ensures |SeriesOf(Some(rows), range, env, cal)| <= |ClosedTrades(rows, env)|
    ensures Ordered(SeriesOf(Some(rows), range, env, cal), PointTime)
    ensures forall i, j :: 0 <= i < j < |SeriesOf(Some(rows), range, env, cal)| ==>
              SeriesOf(Some(rows), range, env, cal)[i].t != SeriesOf(Some(rows), range, env, cal)[j].t
  {
    var inRange := InRange(Running(ClosedTrades(rows, env), TimeOf, TradeRealized), range, env.now);
    ResampleShape(inRange, GrainForSpan(range, Span(inRange)), cal);
  }

  // ---------------------------------------------------------------------
  // Profit and loss totals

  /** What a trade adds to the profit total: its realized PnL when not negative. */
  function ProfitOf(tr: Trade): real {
    if RealizedOf(tr) >= 0.0 then RealizedOf(tr) else 0.0
  }

  /** What a trade adds to the loss total: the size of a negative realized PnL. */
  function LossOf(tr: Trade): real {
    if RealizedOf(tr) >= 0.0 then 0.0 else -RealizedOf(tr)
  }

  /** Both totals are sums of non-negative terms, and their difference is the net realized PnL. */
  lemma {:induction false} TotalsSplit(trades: seq<Trade>)
    ensures SumOf(trades, ProfitOf) >= 0.0 && SumOf(trades, LossOf) >= 0.0
    ensures SumOf(trades, ProfitOf) - SumOf(trades, LossOf) == SumOf(trades, RealizedOf)
  {
    if trades != [] {
      TotalsSplit(trades[..|trades| - 1]);
    }
  }

  /**
   * The totals loop: `Number(t.realized) || 0` is added to the profit when it
   * is not negative and its negation to the loss otherwise; no trades give
   * two zeros.
   */
  method Totals(trades: seq<Trade>) returns (profit: real, lossAbs: real)
    ensures profit == SumOf(trades, ProfitOf) && lossAbs == SumOf(trades, LossOf)
    ensures profit >= 0.0 && lossAbs >= 0.0
    ensures profit - lossAbs == SumOf(trades, RealizedOf)
  {
    if |trades| == 0 {
      return 0.0, 0.0;
    }
    profit, lossAbs := 0.0, 0.0;
    for i := 0 to |trades|
      invariant profit == SumOf(trades[..i], ProfitOf)
      invariant lossAbs == SumOf(trades[..i], LossOf)
    {
      var r := RealizedOf(trades[i]);
      if r >= 0.0 {
        profit := profit + r;
      } else {
        lossAbs := lossAbs + -r;
      }
      assert trades[..i + 1][..i] == trades[..i];
    }
    assert trades[..|trades|] == trades;
    TotalsSplit(trades);
  }

  // ---------------------------------------------------------------------
  // Duration text

  /** What `formatDuration` prints: a dash, `${d}d ${h}h ${mm}m`, `${h}h ${mm}m` or `${mm}m`. */
  datatype DurationText = Dash | DaysHoursMinutes(d: int, h: int, m: int) | HoursMinutes(h: int, m: int) | Minutes(m: int)

  /** `Math.floor(ms / 60000)`. */
  function WholeMinutes(ms: real): int {
    (ms / 60000.0).Floor
  }

  /**
   * `formatDuration(ms)`: a dash for NaN, zero or a negative duration;
   * otherwise the whole minutes split into days, hours and minutes, with
   * leading zero units left out.
   */
  function FormatDuration(ms: Num): DurationText {
    if ms.NaN? || ms.val == 0.0 || ms.val < 0.0 then Dash
    else
      var m := WholeMinutes(ms.val);
      var d := m / (60 * 24);
      var h := (m % (60 * 24)) / 60;
      var mm := m % 60;
      if d > 0 then DaysHoursMinutes(d, h, mm)
      else if h > 0 then HoursMinutes(h, mm)
      else Minutes(mm)
  }

  /** The printed units add back up to the whole minutes, each below its carry. */
  lemma FormatDurationParts(ms: Num)
    ensures FormatDuration(ms).Dash? <==> ms.NaN? || ms.val <= 0.0
    ensures FormatDuration(ms).DaysHoursMinutes? ==>
              var t := FormatDuration(ms);
              t.d > 0 && 0 <= t.h < 24 && 0 <= t.m < 60 && t.d * 1440 + t.h * 60 + t.m == WholeMinutes(ms.val)
    ensures FormatDuration(ms).HoursMinutes? ==>
              var t := FormatDuration(ms);
              0 < t.h < 24 && 0 <= t.m < 60 && t.h * 60 + t.m == WholeMinutes(ms.val)
    ensures FormatDuration(ms).Minutes? ==>
              var t := FormatDuration(ms);
              0 <= t.m < 60 && t.m == WholeMinutes(ms.val)
  {
    if ms.Fin? && ms.val > 0.0 {
      assert ms.val / 60000.0 > 0.0;
      MinuteSplit(WholeMinutes(ms.val));
    }
  }

  /** Whole days, hours below 24 and minutes below 60 that add back up to `m`. */
  lemma MinuteSplit(m: int)
    requires m >= 0
    ensures 0 <= m / 1440 && 0 <= (m % 1440) / 60 < 24 && 0 <= m % 60 < 60
    ensures (m / 1440) * 1440 + ((m % 1440) / 60) * 60 + m % 60 == m
  {
    var d, rest := m / 1440, m % 1440;
    var q, r := rest / 60, rest % 60;
    assert rest == q * 60 + r;
    assert m == (d * 24 + q) * 60 + r;
  }
}
