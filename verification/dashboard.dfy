/**
 * The figures one load of the dashboard derives from a price file
 * (app.py lines 51-104): either the load fails, or the file has no rows and
 * nothing is shown, or the latest price and its change are shown with a
 * chart of the whole history.  The rows of the chosen date range are
 * computed as well, but the dashboard never displays them.
 */
module Dashboard {
  import opened Wrappers
  import opened PriceText
  import opened Series
  import opened Metrics
  import opened DateRange

  /** The date range picked by the reader, or the defaults: first to last date. */
  datatype Bounds = DefaultBounds | Chosen(start: int, end: int)

  /**
   * What one load derives.  In `Shown`, the latest price, the change and the
   * whole history are displayed; `start`, `end` and `filtered` are the date
   * range and its rows, which are computed but not displayed.
   */
  datatype View =
    | LoadFailed(error: LoadError)
    | NoData
    | Shown(latest: real, change: ChangeOutcome, history: seq<PricePoint>,
            start: int, end: int, filtered: seq<PricePoint>)

  /**
   * Loads the rows and derives every figure from the date-ordered series.
   * Nothing is shown exactly for a file without rows; a shown history has
   * one row per file row, in date order, and the latest price and the
   * change are those of that history.  A change is shown exactly when the
   * file has two rows or more, and the filtered rows are the history's rows
   * in the range, which is the chosen one when dates are chosen.
   */
  function Show(rows: seq<RawRow>, bounds: Bounds): (r: View)
    ensures r.NoData? <==> rows == []
    ensures r.Shown? ==> |r.history| == |rows| && SortedByDate(r.history)
    ensures r.Shown? ==> LatestPrice(r.history) == Some(r.latest) && PriceChange(r.history) == r.change
    ensures r.Shown? ==> (r.change.Changed? <==> |rows| >= 2)
    ensures r.Shown? ==> r.filtered == FilterByDate(r.history, r.start, r.end)
    ensures r.Shown? && bounds.Chosen? ==> r.start == bounds.start && r.end == bounds.end
  {
    match Load(rows)
    case Failure(e) => LoadFailed(e)
    case Success(s) => if |s| == 0 then NoData else Figures(s, bounds)
  }

  /**
   * The figures derived from a non-empty, date-ordered series: the last
   * row's price, a change only when there is a row before it, and the rows
   * whose dates lie in the range (computed, not displayed); the default
   * range spans every date.
   */
  function Figures(s: seq<PricePoint>, bounds: Bounds): (r: View)
    requires |s| > 0
    ensures r.Shown? && r.history == s && r.latest == s[|s| - 1].price
    ensures r.change.Changed? <==> |s| >= 2
    ensures |r.filtered| <= |s| && forall i :: 0 <= i < |r.filtered| ==> r.start <= r.filtered[i].day <= r.end
    ensures bounds.DefaultBounds? ==> forall i :: 0 <= i < |s| ==> r.start <= s[i].day <= r.end
    ensures bounds.Chosen? ==> r.start == bounds.start && r.end == bounds.end
  {
    var start := if bounds.DefaultBounds? then MinDay(s) else bounds.start;
    var end := if bounds.DefaultBounds? then MaxDay(s) else bounds.end;
    Shown(LatestPrice(s).value, PriceChange(s), s, start, end, FilterByDate(s, start, end))
  }

  /** A shown view is the figures of the successfully loaded series. */
  lemma ShownIsFiguresOfLoad(rows: seq<RawRow>, bounds: Bounds)
    requires Show(rows, bounds).Shown?
    ensures Load(rows).Success? && |Load(rows).value| > 0
    ensures Show(rows, bounds) == Figures(Load(rows).value, bounds)
  {
  }

  /**
   * The load fails exactly when a price does not convert; nothing is shown
   * exactly when the file has no rows; otherwise the figures are shown.
   */
  lemma ShowOutcomes(rows: seq<RawRow>, bounds: Bounds)
    ensures Show(rows, bounds).LoadFailed? <==> exists j :: 0 <= j < |rows| && !Parses(rows[j])
    ensures Show(rows, bounds).NoData? <==> rows == []
    ensures Show(rows, bounds).Shown? <==> rows != [] && forall j :: 0 <= j < |rows| ==> Parses(rows[j])
  {
    LoadFailsIffSomePriceIsBad(rows);
    if Load(rows).Success? {
      LoadedSeriesIsConvertedOrdering(rows);
    }
  }

  /**
   * The shown series is the file's rows, converted and ordered by date; the
   * latest price is that of a row carrying the file's latest date.
   */
  lemma ShownLatestIsAtLatestDay(rows: seq<RawRow>, bounds: Bounds) returns (j: nat)
    requires Show(rows, bounds).Shown?
    ensures IsDateOrdering(MapSeq(Convert, rows), Show(rows, bounds).history)
    ensures j < |rows| && rows[j].day == MaxDay(rows)
    ensures ParsePrice(rows[j].price) == Some(Show(rows, bounds).latest)
  {
    ShownIsFiguresOfLoad(rows, bounds);
    LoadedSeriesIsConvertedOrdering(rows);
    j := LatestOfLoadedRows(rows, Load(rows).value);
  }

  /** The last row of a loaded series is the conversion of a row of the latest date. */
  lemma LatestOfLoadedRows(rows: seq<RawRow>, s: seq<PricePoint>) returns (j: nat)
    requires Load(rows) == Success(s) && |s| > 0
    ensures j < |rows| && rows[j].day == MaxDay(rows)
    ensures ParsePrice(rows[j].price) == Some(s[|s| - 1].price)
  {
    LoadedSeriesIsConvertedOrdering(rows);
    j := LatestOfConvertedOrdering(rows, s);
  }

  /** The last row of a date ordering of the converted rows comes from a row of the latest date. */
  lemma LatestOfConvertedOrdering(rows: seq<RawRow>, s: seq<PricePoint>) returns (j: nat)
    requires |s| > 0 && IsDateOrdering(MapSeq(Convert, rows), s)
    requires forall i :: 0 <= i < |rows| ==> Parses(rows[i])
    ensures j < |rows| && rows[j].day == MaxDay(rows)
    ensures ParsePrice(rows[j].price) == Some(s[|s| - 1].price)
  {
    var converted := MapSeq(Convert, rows);
    MapSeqPointwise(Convert, rows);
    assert |converted| > 0 by {
      assert |s| == |multiset(s)| == |multiset(converted)| == |converted|;
    }
    j := LatestIsAtLatestDay(converted, s);
    assert MaxDay(converted) == MaxDay(rows) by {
      SameDaysSameBounds(converted, rows);
    }
    assert converted[j] == Convert(rows[j]);
  }

  /** A change is shown exactly when the file has at least two rows. */
  lemma ShownChangeNeedsTwoRows(rows: seq<RawRow>, bounds: Bounds)
    requires Show(rows, bounds).Shown?
    ensures Show(rows, bounds).change.Changed? <==> |rows| >= 2
  {
    ShownIsFiguresOfLoad(rows, bounds);
    LoadedSeriesIsConvertedOrdering(rows);
  }

  /** With the default dates the filtered history is the whole history. */
  lemma DefaultBoundsShowWholeHistory(rows: seq<RawRow>)
    requires Show(rows, DefaultBounds).Shown?
    ensures Show(rows, DefaultBounds).filtered == Show(rows, DefaultBounds).history
    ensures Show(rows, DefaultBounds).start == MinDay(rows)
    ensures Show(rows, DefaultBounds).end == MaxDay(rows)
  {
    ShownIsFiguresOfLoad(rows, DefaultBounds);
    var s := Load(rows).value;
    DefaultRangeKeepsAll(s);
    LoadKeepsDayBounds(rows, s);
  }
}
