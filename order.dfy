/**
 * The two list idioms the pipeline relies on: a loop that keeps some rows and
 * turns each into a record (`Collect`), and `Array.prototype.sort` with the
 * comparator `(a, b) => a.t - b.t` (`SortByTime`).
 *
 * With two valid dates the comparator is positive exactly when the first is
 * later. With an invalid date it returns NaN, which the sort reads as "equal";
 * such a comparator is not consistent and the language leaves the resulting
 * order to the engine. The model sorts by stable insertion, moving an element
 * left past every later-dated neighbour: the result is always a permutation
 * of the input, and sorted whenever every date is valid.
 */
module Order {
  import opened Js

  // ---------------------------------------------------------------------
  // Keep-and-convert

  /** The sequence form of `f` applied to one element. */
  function Opt<B>(o: Option<B>): seq<B> {
    if o.Some? then [o.value] else []
  }

  /**
   * Keep-and-convert over the indices `lo .. hi - 1` of `xs`, in order: what
   * a loop `for (let i = lo; i < hi; i++)` pushes when it keeps `f(xs[i])`.
   */
  function Collect<A, B>(xs: seq<A>, lo: nat, hi: nat, f: A -> Option<B>): (r: seq<B>)
    requires lo <= hi <= |xs|
    ensures |r| <= hi - lo
    decreases hi
  {
    if hi == lo then [] else Collect(xs, lo, hi - 1, f) + Opt(f(xs[hi - 1]))
  }

  /** Every element `Collect` keeps comes from one index of its range. */
  lemma {:induction false} CollectFrom<A, B>(xs: seq<A>, lo: nat, hi: nat, f: A -> Option<B>, y: B) returns (j: nat)
    requires lo <= hi <= |xs| && y in Collect(xs, lo, hi, f)
    ensures lo <= j < hi && f(xs[j]) == Some(y)
    decreases hi
  {
    if y in Collect(xs, lo, hi - 1, f) {
      j := CollectFrom(xs, lo, hi - 1, f, y);
    } else {
      j := hi - 1;
    }
  }

  /** Every index of the range whose conversion succeeds contributes its value. */
  lemma {:induction false} CollectKept<A, B>(xs: seq<A>, lo: nat, hi: nat, f: A -> Option<B>, j: nat)
    requires lo <= j < hi <= |xs| && f(xs[j]).Some?
    ensures f(xs[j]).value in Collect(xs, lo, hi, f)
    decreases hi
  {
    if j < hi - 1 {
      CollectKept(xs, lo, hi - 1, f, j);
    }
  }

  /** What `Collect` keeps is exactly the converted elements of its index range. */
  lemma CollectMembers<A, B>(xs: seq<A>, lo: nat, hi: nat, f: A -> Option<B>, y: B)
    requires lo <= hi <= |xs|
    ensures y in Collect(xs, lo, hi, f) <==> (exists j :: lo <= j < hi && f(xs[j]) == Some(y))
  {
    if y in Collect(xs, lo, hi, f) {
      var j := CollectFrom(xs, lo, hi, f, y);
    }
    if exists j :: lo <= j < hi && f(xs[j]) == Some(y) {
      var j :| lo <= j < hi && f(xs[j]) == Some(y);
      CollectKept(xs, lo, hi, f, j);
    }
  }

  // ---------------------------------------------------------------------
  // Index scans

  /** The indices below `n` whose element satisfies `p`, ascending. */
  function IndicesWhere<A>(xs: seq<A>, p: A -> bool, n: nat): seq<nat>
    requires n <= |xs|
  {
    if n == 0 then [] else IndicesWhere(xs, p, n - 1) + (if p(xs[n - 1]) then [n - 1] else [])
  }

  /** The scan lists strictly ascending indices below `n`, each satisfying `p`. */
  lemma {:induction false} IndicesWhereSound<A>(xs: seq<A>, p: A -> bool, n: nat)
    requires n <= |xs|
    ensures forall k :: 0 <= k < |IndicesWhere(xs, p, n)| ==>
              IndicesWhere(xs, p, n)[k] < n && p(xs[IndicesWhere(xs, p, n)[k]])
    ensures forall k, l :: 0 <= k < l < |IndicesWhere(xs, p, n)| ==>
              IndicesWhere(xs, p, n)[k] < IndicesWhere(xs, p, n)[l]
  {
    if n > 0 {
      IndicesWhereSound(xs, p, n - 1);
      var prev := IndicesWhere(xs, p, n - 1);
      if p(xs[n - 1]) {
        assert IndicesWhere(xs, p, n) == prev + [n - 1];
      } else {
        assert IndicesWhere(xs, p, n) == prev;
      }
    }
  }

  /** Every index below `n` satisfying `p` is listed. */
  lemma {:induction false} IndicesWhereComplete<A>(xs: seq<A>, p: A -> bool, n: nat, i: nat)
    requires n <= |xs|
    requires i < n && p(xs[i])
    ensures i in IndicesWhere(xs, p, n)
  {
    if i < n - 1 {
      IndicesWhereComplete(xs, p, n - 1, i);
    }
  }

  /** An empty scan means no index below `n` satisfies `p`. */
  lemma {:induction false} IndicesWhereNone<A>(xs: seq<A>, p: A -> bool, n: nat, i: nat)
    requires n <= |xs|
    requires IndicesWhere(xs, p, n) == [] && i < n
    ensures !p(xs[i])
  {
    if i < n - 1 {
      IndicesWhereNone(xs, p, n - 1, i);
    }
  }

  /** The first listed index is the first index satisfying `p`. */
  lemma {:induction false} IndicesWhereFirst<A>(xs: seq<A>, p: A -> bool, n: nat, i: nat)
    requires n <= |xs|
    requires i < n && IndicesWhere(xs, p, n) != [] && i < IndicesWhere(xs, p, n)[0]
    ensures !p(xs[i])
  {
    var prev := IndicesWhere(xs, p, n - 1);
    if prev != [] {
      IndicesWhereSound(xs, p, n - 1);
      assert IndicesWhere(xs, p, n)[0] == prev[0];
      IndicesWhereFirst(xs, p, n - 1, i);
    } else {
      IndicesWhereNone(xs, p, n - 1, i);
    }
  }

  // ---------------------------------------------------------------------
  // Sorting by date

  /** The comparator `a - b` is positive: both dates valid and `a` strictly later. */
  predicate Later(a: Instant, b: Instant) {
    a.At? && b.At? && a.ms > b.ms
  }

  /** Where `Insert` places `x`: after the last element that is not later than it. */
  function InsertPos<T>(s: seq<T>, x: T, time: T -> Instant): (k: nat)
    ensures k <= |s|
    ensures forall i :: k <= i < |s| ==> Later(time(s[i]), time(x))
    ensures k > 0 ==> !Later(time(s[k - 1]), time(x))
  {
    if s == [] then 0
    else if Later(time(s[|s| - 1]), time(x)) then InsertPos(s[..|s| - 1], x, time)
    else |s|
  }

  /** One step of insertion sort: `x` moves left past every later-dated element. */
  function Insert<T>(s: seq<T>, x: T, time: T -> Instant): seq<T>
  {
    if s == [] then [x]
    else if Later(time(s[|s| - 1]), time(x)) then Insert(s[..|s| - 1], x, time) + [s[|s| - 1]]
    else s + [x]
  }

  /** `Insert` splices `x` in at `InsertPos`, leaving the rest in order. */
  lemma {:induction false} InsertSplice<T>(s: seq<T>, x: T, time: T -> Instant)
    ensures Insert(s, x, time) == s[..InsertPos(s, x, time)] + [x] + s[InsertPos(s, x, time)..]
  {
    if s != [] && Later(time(s[|s| - 1]), time(x)) {
      var init := s[..|s| - 1];
      InsertSplice(init, x, time);
      var k := InsertPos(init, x, time);
      assert init[..k] == s[..k];
      assert init[k..] + [s[|s| - 1]] == s[k..];
    }
  }

  /** `trades.sort((a, b) => a.t - b.t)`, by stable insertion. */
  function SortByTime<T>(s: seq<T>, time: T -> Instant): (r: seq<T>)
  {
    if s == [] then [] else Insert(SortByTime(s[..|s| - 1], time), s[|s| - 1], time)
  }

  /** No element is followed directly by an element the comparator calls earlier. */
  ghost predicate Ordered<T>(s: seq<T>, time: T -> Instant) {
    forall i, j :: 0 <= i < j < |s| && j == i + 1 ==> !Later(time(s[i]), time(s[j]))
  }

  ghost predicate AllValid<T>(s: seq<T>, time: T -> Instant) {
    forall i :: 0 <= i < |s| ==> time(s[i]).At?
  }

  /** Ascending by date, with every date valid. */
  ghost predicate Sorted<T>(s: seq<T>, time: T -> Instant) {
    AllValid(s, time)
    && forall i, j :: 0 <= i < j < |s| ==> time(s[i]).ms <= time(s[j]).ms
  }

  /** Dropping the last element keeps the order. */
  lemma OrderedDropLast<T>(s: seq<T>, time: T -> Instant)
    requires |s| > 0 && Ordered(s, time)
    ensures Ordered(s[..|s| - 1], time)
  {
    var init := s[..|s| - 1];
    forall i, j | 0 <= i < j < |init| && j == i + 1
      ensures !Later(time(init[i]), time(init[j]))
    {
      assert init[i] == s[i] && init[j] == s[j];
    }
  }

  /** Appending an element no earlier than the last keeps the order. */
  lemma OrderedSnoc<T>(s: seq<T>, x: T, time: T -> Instant)
    requires Ordered(s, time)
    requires |s| > 0 ==> !Later(time(s[|s| - 1]), time(x))
    ensures Ordered(s + [x], time)
  {
    var s' := s + [x];
    forall i, j | 0 <= i < j < |s'| && j == i + 1
      ensures !Later(time(s'[i]), time(s'[j]))
    {
      if j < |s| {
        assert s'[i] == s[i] && s'[j] == s[j];
      }
    }
  }

  /** Inserting adds exactly one occurrence of `x`. */
  lemma {:induction false} InsertCount<T>(s: seq<T>, x: T, time: T -> Instant)
    ensures |Insert(s, x, time)| == |s| + 1
    ensures multiset(Insert(s, x, time)) == multiset(s) + multiset{x}
  {
    if s != [] && Later(time(s[|s| - 1]), time(x)) {
      var init := s[..|s| - 1];
      InsertCount(init, x, time);
      assert s == init + [s[|s| - 1]];
    }
  }

  /** Sorting only reorders: same elements, same number of times. */
  lemma {:induction false} SortIsPermutation<T>(s: seq<T>, time: T -> Instant)
    ensures |SortByTime(s, time)| == |s|
    ensures multiset(SortByTime(s, time)) == multiset(s)
  {
    if s != [] {
      var init := s[..|s| - 1];
      SortIsPermutation(init, time);
      InsertCount(SortByTime(init, time), s[|s| - 1], time);
      assert s == init + [s[|s| - 1]];
    }
  }

  lemma SortMembers<T>(s: seq<T>, time: T -> Instant, x: T)
    ensures x in SortByTime(s, time) <==> x in s
  {
    SortIsPermutation(s, time);
    assert x in SortByTime(s, time) <==> x in multiset(SortByTime(s, time));
    assert x in s <==> x in multiset(s);
  }

  /** Inserting into an ordered sequence keeps it ordered. */
  lemma {:induction false} InsertOrdered<T>(s: seq<T>, x: T, time: T -> Instant)
    requires Ordered(s, time)
    ensures Ordered(Insert(s, x, time), time)
  {
    InsertSplice(s, x, time);
    var k := InsertPos(s, x, time);
    var r := Insert(s, x, time);
    forall i, j | 0 <= i < j < |r| && j == i + 1
      ensures !Later(time(r[i]), time(r[j]))
    {
      if j < k {
        assert r[i] == s[i] && r[j] == s[j];
      } else if j == k {
        assert r[i] == s[k - 1] && r[j] == x;
      } else if i == k {
        assert r[i] == x && r[j] == s[k];
      } else {
        assert r[i] == s[i - 1] && r[j] == s[j - 1];
      }
    }
  }

  /** Whatever the dates, the sorted sequence is ordered. */
  lemma {:induction false} SortOrdered<T>(s: seq<T>, time: T -> Instant)
    ensures Ordered(SortByTime(s, time), time)
  {
    if s != [] {
      SortOrdered(s[..|s| - 1], time);
      InsertOrdered(SortByTime(s[..|s| - 1], time), s[|s| - 1], time);
    }
  }

  /** With valid dates, ordered neighbours mean a sorted sequence. */
  lemma {:induction false} OrderedValidIsSorted<T>(s: seq<T>, time: T -> Instant)
    requires Ordered(s, time) && AllValid(s, time)
    ensures Sorted(s, time)
  {
    if s != [] {
      var init := s[..|s| - 1];
      assert Ordered(init, time) by {
        forall i, j | 0 <= i < j < |init| && j == i + 1
          ensures !Later(time(init[i]), time(init[j]))
        {
          assert init[i] == s[i] && init[j] == s[j];
        }
      }
      OrderedValidIsSorted(init, time);
      forall i, j | 0 <= i < j < |s|
        ensures time(s[i]).ms <= time(s[j]).ms
      {
        if j < |s| - 1 {
          assert init[i] == s[i] && init[j] == s[j];
        } else if i < |s| - 2 {
          assert init[i] == s[i] && init[|s| - 2] == s[|s| - 2];
          assert !Later(time(s[|s| - 2]), time(s[|s| - 1]));
        } else {
          assert !Later(time(s[i]), time(s[j]));
        }
      }
    }
  }

  /** When every date is valid, the sort returns them ascending. */
  lemma SortSorted<T>(s: seq<T>, time: T -> Instant)
    requires AllValid(s, time)
    ensures Sorted(SortByTime(s, time), time)
  {
    SortOrdered(s, time);
    forall i | 0 <= i < |SortByTime(s, time)|
      ensures time(SortByTime(s, time)[i]).At?
    {
      SortMembers(s, time, SortByTime(s, time)[i]);
    }
    OrderedValidIsSorted(SortByTime(s, time), time);
  }

  /** The elements dated `t`, in their order in `s`. */
  function WithTime<T>(s: seq<T>, time: T -> Instant, t: Instant): (r: seq<T>)
    ensures |r| <= |s|
  {
    if s == [] then [] else WithTime(s[..|s| - 1], time, t) + (if time(s[|s| - 1]) == t then [s[|s| - 1]] else [])
  }

  lemma WithTimeSnoc<T>(s: seq<T>, e: T, time: T -> Instant, t: Instant)
    ensures WithTime(s + [e], time, t) == WithTime(s, time, t) + (if time(e) == t then [e] else [])
  {
    assert (s + [e])[..|s|] == s;
  }

  /** `Insert` puts `x` after every element already dated like it. */
  lemma {:induction false} InsertStable<T>(u: seq<T>, x: T, time: T -> Instant, t: Instant)
    ensures WithTime(Insert(u, x, time), time, t) == WithTime(u, time, t) + (if time(x) == t then [x] else [])
  {
    if u == [] {
      WithTimeSnoc(u, x, time, t);
    } else if Later(time(u[|u| - 1]), time(x)) {
      var init, last := u[..|u| - 1], u[|u| - 1];
      var ins := Insert(init, x, time);
      assert Insert(u, x, time) == ins + [last];
      InsertStable(init, x, time, t);
      WithTimeSnoc(ins, last, time, t);
      assert init + [last] == u;
      WithTimeSnoc(init, last, time, t);
      var w := WithTime(init, time, t);
      if time(x) == t {
        assert time(last) != t;
        assert WithTime(ins + [last], time, t) == w + [x];
      } else {
        assert WithTime(ins + [last], time, t) == w + (if time(last) == t then [last] else []);
      }
    } else {
      WithTimeSnoc(u, x, time, t);
    }
  }

  /** The sort is stable: elements with the same date, valid or not, keep their input order. */
  lemma {:induction false} SortStable<T>(s: seq<T>, time: T -> Instant, t: Instant)
    ensures WithTime(SortByTime(s, time), time, t) == WithTime(s, time, t)
  {
    if s != [] {
      SortStable(s[..|s| - 1], time, t);
      InsertStable(SortByTime(s[..|s| - 1], time), s[|s| - 1], time, t);
    }
  }

  /** Sorting an ordered sequence changes nothing. */
  lemma {:induction false} SortOfOrdered<T>(s: seq<T>, time: T -> Instant)
    requires Ordered(s, time)
    ensures SortByTime(s, time) == s
  {
    if s != [] {
      var init := s[..|s| - 1];
      assert Ordered(init, time) by {
        forall i, j | 0 <= i < j < |init| && j == i + 1
          ensures !Later(time(init[i]), time(init[j]))
        {
          assert init[i] == s[i] && init[j] == s[j];
        }
      }
      SortOfOrdered(init, time);
      if |init| > 0 {
        assert !Later(time(s[|s| - 2]), time(s[|s| - 1]));
      }
      assert init + [s[|s| - 1]] == s;
    }
  }

  /** Sorting is idempotent. */
  lemma SortIdempotent<T>(s: seq<T>, time: T -> Instant)
    ensures SortByTime(SortByTime(s, time), time) == SortByTime(s, time)
  {
    SortOrdered(s, time);
    SortOfOrdered(SortByTime(s, time), time);
  }
}
