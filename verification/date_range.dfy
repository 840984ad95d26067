/**
 * Restriction of a price series to a date range chosen by the reader
 * (app.py lines 94-100): a row is kept when its date lies between the start
 * and end dates, both included.  The default range runs from the earliest to
 * the latest date of the series.
 */
module DateRange {
  import opened Series

  predicate InRange(r: PricePoint, start: int, end: int) {
    start <= r.day <= end
  }

  /** The rows dated within [start, end], in their original order. */
  function FilterByDate(s: seq<PricePoint>, start: int, end: int): (r: seq<PricePoint>)
    ensures |r| <= |s|
    ensures forall k :: 0 <= k < |r| ==> InRange(r[k], start, end)
  {
    if s == [] then []
    else
      var rest := FilterByDate(s[1..], start, end);
      if InRange(s[0], start, end) then [s[0]] + rest else rest
  }

  /** Each row in the range is kept as often as it occurs; no other row is kept. */
  lemma {:induction false} FilterCounts(s: seq<PricePoint>, start: int, end: int)
    ensures forall x :: multiset(FilterByDate(s, start, end))[x] == if InRange(x, start, end) then multiset(s)[x] else 0
  {
    if s != [] {
      FilterCounts(s[1..], start, end);
      assert s == [s[0]] + s[1..];
    }
  }

  /**
   * The filtered rows are picked from the series at increasing positions,
   * and a position is picked exactly when its row lies in the range.
   */
  lemma {:induction false} FilterIsOrderedSelection(s: seq<PricePoint>, start: int, end: int) returns (idx: seq<nat>)
    ensures |idx| == |FilterByDate(s, start, end)|
    ensures forall k :: 0 <= k < |idx| ==> idx[k] < |s| && FilterByDate(s, start, end)[k] == s[idx[k]]
    ensures forall k, l :: 0 <= k < l < |idx| ==> idx[k] < idx[l]
    ensures forall i :: 0 <= i < |s| ==> (InRange(s[i], start, end) <==> i in idx)
    decreases |s|
  {
    if s == [] {
      idx := [];
    } else {
      var n := |s| - 1;
      var front := s[..n];
      var prefix := FilterIsOrderedSelection(front, start, end);
      var rest := FilterByDate(front, start, end);
      FilterAppend(front, [s[n]], start, end);
      assert s == front + [s[n]];
      if InRange(s[n], start, end) {
        idx := prefix + [n];
        assert FilterByDate(s, start, end) == rest + [s[n]];
      } else {
        idx := prefix;
        assert FilterByDate(s, start, end) == rest;
      }
    }
  }

  /** Filtering a concatenation filters each part. */
  lemma {:induction false} FilterAppend(a: seq<PricePoint>, b: seq<PricePoint>, start: int, end: int)
    ensures FilterByDate(a + b, start, end) == FilterByDate(a, start, end) + FilterByDate(b, start, end)
  {
    if a == [] {
      assert a + b == b;
    } else {
      assert (a + b)[0] == a[0];
      assert (a + b)[1..] == a[1..] + b;
      FilterAppend(a[1..], b, start, end);
    }
  }

  /** A range whose start lies after its end keeps nothing. */
  lemma {:induction false} ReversedRangeIsEmpty(s: seq<PricePoint>, start: int, end: int)
    requires start > end
    ensures FilterByDate(s, start, end) == []
  {
    if s != [] {
      ReversedRangeIsEmpty(s[1..], start, end);
    }
  }

  /** The default range, earliest to latest date, keeps the whole series. */
  lemma {:induction false} DefaultRangeKeepsAll(s: seq<PricePoint>)
    requires |s| > 0
    ensures FilterByDate(s, MinDay(s), MaxDay(s)) == s
  {
    WideRangeKeepsAll(s, MinDay(s), MaxDay(s));
  }

  /** A range covering every date of the series keeps all of it. */
  lemma {:induction false} WideRangeKeepsAll(s: seq<PricePoint>, start: int, end: int)
    requires forall i :: 0 <= i < |s| ==> InRange(s[i], start, end)
    ensures FilterByDate(s, start, end) == s
  {
    if s != [] {
      WideRangeKeepsAll(s[1..], start, end);
    }
  }

  /** Filtering a date-ordered series leaves it ordered by date. */
  lemma FilterKeepsOrder(s: seq<PricePoint>, start: int, end: int)
    requires SortedByDate(s)
    ensures SortedByDate(FilterByDate(s, start, end))
  {
    var r := FilterByDate(s, start, end);
    var idx := FilterIsOrderedSelection(s, start, end);
    forall k, l | 0 <= k < l < |r|
      ensures r[k].day <= r[l].day
    {
      assert r[k] == s[idx[k]] && r[l] == s[idx[l]];
    }
  }

  /** Filtering twice is filtering once by the intersection of the two ranges. */
  lemma {:induction false} FilterTwice(s: seq<PricePoint>, a: int, b: int, c: int, d: int)
    ensures FilterByDate(FilterByDate(s, a, b), c, d)
         == FilterByDate(s, if a >= c then a else c, if b <= d then b else d)
  {
    if s != [] {
      FilterTwice(s[1..], a, b, c, d);
    }
  }
}
