/**
 * The headline figures derived from a loaded, date-ordered price series
 * (app.py lines 63-80): the latest price, and the change from the row
 * before it with its percentage and direction.
 */
module Metrics {
  import opened Wrappers
  import opened Series

  /** Colour of the change banner: Up for a gain or no change, Down for a loss. */
  datatype Direction = Up | Down

  /**
   * A percentage as floating-point division produces it: a finite value, or
   * the infinity or not-a-number that a division by a zero price yields.
   */
  datatype Percent = Finite(value: real) | PosInf | NegInf | NaN

  /**
   * The outcome of the change computation: Unable when there is no row
   * before the last one, otherwise the change, its percentage and direction.
   */
  datatype ChangeOutcome =
    | Unable
    | Changed(change: real, percent: Percent, direction: Direction)

  /** The price of the most recent row; None for an empty series. */
  function LatestPrice(s: seq<PricePoint>): (r: Option<real>)
    ensures r.Some? <==> |s| > 0
  {
    if |s| == 0 then None else Some(s[|s| - 1].price)
  }

  /** A gain or no change shows as Up, a loss as Down. */
  function DirectionOf(change: real): (r: Direction) {
    if change >= 0.0 then Up else Down
  }

  /**
   * Floating-point division of two finite numbers, read exactly: a finite
   * quotient undoes the division, and only a zero divisor gives a
   * non-finite result.
   */
  function Divide(x: real, y: real): (r: Percent)
    ensures r.Finite? <==> y != 0.0
    ensures r.Finite? ==> r.value * y == x
    ensures r == NaN <==> x == 0.0 && y == 0.0
  {
    if y != 0.0 then Finite(x / y)
    else if x > 0.0 then PosInf
    else if x < 0.0 then NegInf
    else NaN
  }

  /** Multiplication of a percentage by a positive constant. */
  function ScalePositive(p: Percent, k: real): (r: Percent)
    requires k > 0.0
  {
    match p
    case Finite(v) => Finite(v * k)
    case _ => p
  }

  /**
   * Change of the last price against the one before it; Unable when the
   * series has fewer than two rows, since there is no previous price.
   */
  function PriceChange(s: seq<PricePoint>): (r: ChangeOutcome)
    ensures r.Unable? <==> |s| < 2
  {
    if |s| < 2 then Unable
    else
      var latest := s[|s| - 1].price;
      var previous := s[|s| - 2].price;
      var change := latest - previous;
      Changed(change, ScalePositive(Divide(change, previous), 100.0), DirectionOf(change))
  }

  /** The latest row of any date ordering is dated on the latest day of the input. */
  lemma LatestIsAtLatestDay(s: seq<PricePoint>, t: seq<PricePoint>) returns (j: nat)
    requires IsDateOrdering(s, t) && |s| > 0
    ensures LatestPrice(t).Some?
    ensures j < |s| && s[j].day == MaxDay(s) && s[j].price == LatestPrice(t).value
  {
    assert |t| == |multiset(t)| == |multiset(s)| == |s|;
    SortedEnds(t);
    OrderingKeepsDayBounds(s, t);
    assert t[|t| - 1] in multiset(s);
    j :| 0 <= j < |s| && s[j] == t[|t| - 1];
  }

  /**
   * When a single row holds the latest date, every date ordering shows the
   * same latest price: the unspecified order among equal dates cannot reach it.
   */
  lemma LatestPriceIndependentOfTies(s: seq<PricePoint>, t1: seq<PricePoint>, t2: seq<PricePoint>)
    requires IsDateOrdering(s, t1) && IsDateOrdering(s, t2)
    requires forall i, j :: 0 <= i < |s| && 0 <= j < |s| && s[i].day == s[j].day == MaxDay(s) ==> i == j
    ensures LatestPrice(t1) == LatestPrice(t2)
  {
    assert |t1| == |multiset(t1)| == |s| && |t2| == |multiset(t2)| == |s|;
    if |s| > 0 {
      SortedEnds(t1);
      SortedEnds(t2);
      OrderingKeepsDayBounds(s, t1);
      OrderingKeepsDayBounds(s, t2);
      var a, b := t1[|t1| - 1], t2[|t2| - 1];
      assert a in multiset(s) && b in multiset(s);
      var i :| 0 <= i < |s| && s[i] == a;
      var j :| 0 <= j < |s| && s[j] == b;
    }
  }

  /** Adding the change to the previous price gives back the latest price. */
  lemma ChangeRecoversLatest(s: seq<PricePoint>)
    requires |s| >= 2
    ensures PriceChange(s).Changed?
    ensures s[|s| - 2].price + PriceChange(s).change == s[|s| - 1].price
  {
  }

  /**
   * With a non-zero previous price the percentage is finite and growing the
   * previous price by it gives back the latest price.
   */
  lemma PercentRecoversLatest(s: seq<PricePoint>)
    requires |s| >= 2 && s[|s| - 2].price != 0.0
    ensures PriceChange(s).percent.Finite?
    ensures s[|s| - 2].price * (1.0 + PriceChange(s).percent.value / 100.0) == s[|s| - 1].price
  {
    var prev, last := s[|s| - 2].price, s[|s| - 1].price;
    var p := PriceChange(s).percent.value;
    assert p == (last - prev) / prev * 100.0;
    calc {
      prev * (1.0 + p / 100.0);
      prev + prev * ((last - prev) / prev);
      last;
    }
  }

  /**
   * With a zero previous price the division by zero yields an infinity of
   * the change's sign, or not-a-number when nothing changed.
   */
  lemma PercentOfZeroPrevious(s: seq<PricePoint>)
    requires |s| >= 2 && s[|s| - 2].price == 0.0
    ensures s[|s| - 1].price > 0.0 ==> PriceChange(s).percent == PosInf
    ensures s[|s| - 1].price < 0.0 ==> PriceChange(s).percent == NegInf
    ensures s[|s| - 1].price == 0.0 ==> PriceChange(s).percent == NaN
  {
  }

  /** The banner shows Up exactly when the latest price is not below the previous one. */
  lemma UpIffNotLower(s: seq<PricePoint>)
    requires |s| >= 2
    ensures PriceChange(s).direction == Up <==> s[|s| - 1].price >= s[|s| - 2].price
    ensures PriceChange(s).direction == Down <==> s[|s| - 1].price < s[|s| - 2].price
  {
  }

  /** With a positive previous price, the percentage has the sign the direction shows. */
  lemma PercentAgreesWithDirection(s: seq<PricePoint>)
    requires |s| >= 2 && s[|s| - 2].price > 0.0
    ensures PriceChange(s).percent.Finite?
    ensures PriceChange(s).direction == Up <==> PriceChange(s).percent.value >= 0.0
  {
    var prev, last := s[|s| - 2].price, s[|s| - 1].price;
    var change := last - prev;
    if change >= 0.0 {
      assert change / prev >= 0.0;
    } else {
      assert change / prev < 0.0;
    }
  }

  /**
   * In any date ordering of a series, the row before the last is one of the
   * series' rows other than the last, and no other such row is dated later.
   */
  lemma PreviousIsSecondLatest(s: seq<PricePoint>, t: seq<PricePoint>)
    requires |s| >= 2 && IsDateOrdering(s, t)
    ensures |t| == |s|
    ensures t[|t| - 2] in multiset(s) - multiset{t[|t| - 1]}
    ensures forall x | x in multiset(s) - multiset{t[|t| - 1]} :: x.day <= t[|t| - 2].day
  {
    assert |t| == |multiset(t)| == |multiset(s)| == |s|;
    var init := t[..|t| - 1];
    assert multiset(s) - multiset{t[|t| - 1]} == multiset(init) by {
      DropLast(t);
    }
    assert t[|t| - 2] in multiset(init) by {
      assert init[|init| - 1] == t[|t| - 2];
    }
    SortedPrefixBelowLast(init);
  }

  /** Removing the last row from a sequence's multiset leaves the multiset of the rest. */
  lemma DropLast<T>(t: seq<T>)
    requires |t| > 0
    ensures multiset(t) - multiset{t[|t| - 1]} == multiset(t[..|t| - 1])
  {
    assert t == t[..|t| - 1] + [t[|t| - 1]];
  }

  /** In a date-ordered sequence no row is dated after the last one. */
  lemma SortedPrefixBelowLast(u: seq<PricePoint>)
    requires |u| > 0 && SortedByDate(u)
    ensures forall x | x in multiset(u) :: x.day <= u[|u| - 1].day
  {
    forall x | x in multiset(u)
      ensures x.day <= u[|u| - 1].day
    {
      assert x in u;
      var i :| 0 <= i < |u| && u[i] == x;
    }
  }
}
