/**
 * Loading a price history (app.py lines 55-61 and 102-104): the rows are
 * ordered by date, then every price text is cleaned and converted.  One bad
 * price aborts the whole load; no row is dropped on its own.
 */
module Series {
  import opened Wrappers
  import opened PriceText

  /** One row of a price history: a date (as a day number) and a price. */
  datatype Row<P> = Row(day: int, price: P)

  /** A row as read from the file, with the price still as text. */
  type RawRow = Row<string>

  /** A row whose price has been converted to a number. */
  type PricePoint = Row<real>

  /**
   * Why a load fails: a price text that does not convert to a number.  The
   * text is the cell as read, commas included.
   */
  datatype LoadError = NotANumber(text: string)

  /** Dates never decrease along the sequence; equal dates are allowed. */
  ghost predicate SortedByDate<P>(s: seq<Row<P>>) {
    forall i, j :: 0 <= i < j < |s| ==> s[i].day <= s[j].day
  }

  /** `t` is an ordering of `s` by date: the same rows, dates non-decreasing. */
  ghost predicate IsDateOrdering<P>(s: seq<Row<P>>, t: seq<Row<P>>) {
    multiset(t) == multiset(s) && SortedByDate(t)
  }

  /** The latest date among the rows. */
  function MaxDay<P>(s: seq<Row<P>>): (r: int)
    requires |s| > 0
    ensures forall i :: 0 <= i < |s| ==> s[i].day <= r
    ensures exists i :: 0 <= i < |s| && s[i].day == r
  {
    if |s| == 1 then s[0].day
    else
      var m := MaxDay(s[1..]);
      assert forall i :: 1 <= i < |s| ==> s[i] == s[1..][i - 1];
      if s[0].day >= m then s[0].day else m
  }

  /** The earliest date among the rows. */
  function MinDay<P>(s: seq<Row<P>>): (r: int)
    requires |s| > 0
    ensures forall i :: 0 <= i < |s| ==> r <= s[i].day
    ensures exists i :: 0 <= i < |s| && s[i].day == r
  {
    if |s| == 1 then s[0].day
    else
      var m := MinDay(s[1..]);
      assert forall i :: 1 <= i < |s| ==> s[i] == s[1..][i - 1];
      if s[0].day <= m then s[0].day else m
  }

  /** In a sequence ordered by date the first row is the earliest and the last the latest. */
  lemma SortedEnds<P>(s: seq<Row<P>>)
    requires |s| > 0 && SortedByDate(s)
    ensures MinDay(s) == s[0].day
    ensures MaxDay(s) == s[|s| - 1].day
  {
    assert MinDay(s) == s[0].day by {
      var i :| 0 <= i < |s| && s[i].day == MinDay(s);
      assert s[0].day <= s[i].day;
    }
    assert MaxDay(s) == s[|s| - 1].day by {
      var k :| 0 <= k < |s| && s[k].day == MaxDay(s);
      assert s[k].day <= s[|s| - 1].day;
    }
  }

  /** Reordering rows changes neither the earliest nor the latest date. */
  lemma OrderingKeepsDayBounds<P>(s: seq<Row<P>>, t: seq<Row<P>>)
    requires multiset(s) == multiset(t) && |s| > 0
    ensures |t| > 0
    ensures MaxDay(t) == MaxDay(s) && MinDay(t) == MinDay(s)
  {
    assert |t| == |multiset(t)| == |multiset(s)| == |s|;
    var i :| 0 <= i < |s| && s[i].day == MaxDay(s);
    var j :| 0 <= j < |t| && t[j].day == MaxDay(t);
    assert s[i] in multiset(t) && t[j] in multiset(s);
    var i' :| 0 <= i' < |s| && s[i'].day == MinDay(s);
    var j' :| 0 <= j' < |t| && t[j'].day == MinDay(t);
    assert s[i'] in multiset(t) && t[j'] in multiset(s);
  }

  /** Two sequences with the same dates position by position share their date bounds. */
  lemma SameDaysSameBounds<P, Q>(s: seq<Row<P>>, t: seq<Row<Q>>)
    requires |s| == |t| > 0
    requires forall i :: 0 <= i < |s| ==> s[i].day == t[i].day
    ensures MaxDay(s) == MaxDay(t) && MinDay(s) == MinDay(t)
  {
    var i :| 0 <= i < |s| && s[i].day == MaxDay(s);
    assert s[i].day == t[i].day <= MaxDay(t);
    var j :| 0 <= j < |t| && t[j].day == MaxDay(t);
    assert t[j].day == s[j].day <= MaxDay(s);
    var i' :| 0 <= i' < |s| && s[i'].day == MinDay(s);
    assert s[i'].day == t[i'].day >= MinDay(t);
    var j' :| 0 <= j' < |t| && t[j'].day == MinDay(t);
    assert t[j'].day == s[j'].day >= MinDay(s);
  }

  /** Every row of a multiset-combination of bounded parts is bounded too. */
  lemma LowerBoundCarries<P>(r: seq<Row<P>>, u: seq<Row<P>>, x: Row<P>, lo: int)
    requires multiset(r) == multiset(u) + multiset{x}
    requires lo <= x.day && forall i :: 0 <= i < |u| ==> lo <= u[i].day
    ensures forall k :: 0 <= k < |r| ==> lo <= r[k].day
  {
    forall k | 0 <= k < |r|
      ensures lo <= r[k].day
    {
      assert r[k] in multiset(r);
      if r[k] != x {
        assert r[k] in multiset(u);
        var i :| 0 <= i < |u| && u[i] == r[k];
      }
    }
  }

  /** Places `x` before the first row of a sorted sequence dated no earlier. */
  function Insert<P>(x: Row<P>, s: seq<Row<P>>): (r: seq<Row<P>>)
    requires SortedByDate(s)
    ensures multiset(r) == multiset(s) + multiset{x}
    ensures SortedByDate(r)
  {
    if s == [] then [x]
    else if x.day <= s[0].day then [x] + s
    else
      var rest := Insert(x, s[1..]);
      assert s == [s[0]] + s[1..];
      LowerBoundCarries(rest, s[1..], x, s[0].day);
      [s[0]] + rest
  }

  /**
   * Orders rows by date.  Rows with equal dates may come out in any order:
   * the contract promises only an ordering, not a stable one.
   */
  function SortByDate<P>(s: seq<Row<P>>): (r: seq<Row<P>>)
    ensures IsDateOrdering(s, r)
  {
    if s == [] then []
    else
      assert s == [s[0]] + s[1..];
      Insert(s[0], SortByDate(s[1..]))
  }

  /** The price text of this row converts to a number. */
  predicate Parses(r: RawRow) {
    ParsePrice(r.price).Some?
  }

  /** The converted row, with 0.0 standing in for a price that does not convert. */
  function Convert(row: RawRow): (r: PricePoint) {
    Row(row.day, ParsePrice(row.price).GetOr(0.0))
  }

  /**
   * Converts every price in order; the first price that does not convert
   * stops the conversion.
   */
  function ConvertAll(s: seq<RawRow>): (r: Result<seq<PricePoint>, LoadError>)
    ensures r.Success? <==> forall i :: 0 <= i < |s| ==> Parses(s[i])
    ensures r.Success? ==> |r.value| == |s| && forall i :: 0 <= i < |s| ==> r.value[i] == Convert(s[i])
    ensures r.Failure? ==> exists i :: 0 <= i < |s| && !Parses(s[i]) && r.error == NotANumber(s[i].price)
  {
    if s == [] then Success([])
    else
      match ParsePrice(s[0].price)
      case None => Failure(NotANumber(s[0].price))
      case Some(p) =>
        match ConvertAll(s[1..])
        case Failure(e) => Failure(e)
        case Success(rest) => Success([Row(s[0].day, p)] + rest)
  }

  /**
   * The whole load: order the rows by date, then convert every price.  A
   * successful load keeps one row per input row, in date order.
   */
  function Load(rows: seq<RawRow>): (r: Result<seq<PricePoint>, LoadError>)
    ensures r.Success? ==> |r.value| == |rows| && SortedByDate(r.value)
  {
    var t := SortByDate(rows);
    assert |t| == |multiset(t)| == |multiset(rows)| == |rows|;
    ConvertAll(t)
  }

  /** Applies `f` to every element, keeping the order. */
  function MapSeq<A, B>(f: A -> B, s: seq<A>): (r: seq<B>)
    ensures |r| == |s|
  {
    if s == [] then [] else [f(s[0])] + MapSeq(f, s[1..])
  }

  /** Position `i` of the mapped sequence is the image of position `i`. */
  lemma {:induction false} MapSeqPointwise<A, B>(f: A -> B, s: seq<A>)
    ensures forall i :: 0 <= i < |s| ==> MapSeq(f, s)[i] == f(s[i])
  {
    if s != [] {
      MapSeqPointwise(f, s[1..]);
    }
  }

  lemma {:induction false} MapSeqAppend<A, B>(f: A -> B, u: seq<A>, v: seq<A>)
    ensures MapSeq(f, u + v) == MapSeq(f, u) + MapSeq(f, v)
  {
    if u == [] {
      assert u + v == v;
    } else {
      assert (u + v)[0] == u[0];
      assert (u + v)[1..] == u[1..] + v;
      MapSeqAppend(f, u[1..], v);
    }
  }

  lemma SplitAt<T>(u: seq<T>, k: nat)
    requires k < |u|
    ensures u == u[..k] + [u[k]] + u[k + 1..]
  {
  }

  /** Removing the element at `k` removes one occurrence of it from the multiset. */
  lemma RemoveAt<T>(u: seq<T>, k: nat)
    requires k < |u|
    ensures multiset(u[..k] + u[k + 1..]) == multiset(u) - multiset{u[k]}
  {
    var p, q := u[..k], u[k + 1..];
    SplitAt(u, k);
    assert multiset(u) == multiset(p) + multiset{u[k]} + multiset(q);
    assert multiset(p + q) == multiset(p) + multiset(q);
  }

  /** Mapping after removing the element at `k` loses exactly its image. */
  lemma MapRemoveAt<A, B>(f: A -> B, u: seq<A>, k: nat)
    requires k < |u|
    ensures multiset(MapSeq(f, u)) == multiset(MapSeq(f, u[..k] + u[k + 1..])) + multiset{f(u[k])}
  {
    var p, q := u[..k], u[k + 1..];
    SplitAt(u, k);
    MapSeqAppend(f, p + [u[k]], q);
    MapSeqAppend(f, p, [u[k]]);
    MapSeqAppend(f, p, q);
    var mp, mq := MapSeq(f, p), MapSeq(f, q);
    assert MapSeq(f, [u[k]]) == [f(u[k])];
    assert MapSeq(f, u) == mp + [f(u[k])] + mq;
    assert MapSeq(f, p + q) == mp + mq;
    assert multiset(mp + [f(u[k])] + mq) == multiset(mp) + multiset{f(u[k])} + multiset(mq);
  }

  /** Removing the same element from two permutations leaves permutations. */
  lemma PermutationWithoutHead<A>(a: seq<A>, b: seq<A>, k: nat)
    requires multiset(a) == multiset(b) && |a| > 0 && k < |b| && b[k] == a[0]
    ensures multiset(a[1..]) == multiset(b[..k] + b[k + 1..])
  {
    assert a == [a[0]] + a[1..];
    assert multiset(a) == multiset{a[0]} + multiset(a[1..]);
    RemoveAt(b, k);
  }

  /** Mapping two permutations of each other yields permutations of each other. */
  lemma {:induction false} MapKeepsPermutation<A, B>(f: A -> B, a: seq<A>, b: seq<A>)
    requires multiset(a) == multiset(b)
    ensures multiset(MapSeq(f, a)) == multiset(MapSeq(f, b))
    decreases |a|
  {
    if a == [] {
      assert |b| == |multiset(b)| == 0;
    } else {
      assert a[0] in multiset(b);
      var k :| 0 <= k < |b| && b[k] == a[0];
      var rest := b[..k] + b[k + 1..];
      PermutationWithoutHead(a, b, k);
      MapKeepsPermutation(f, a[1..], rest);
      MapRemoveAt(f, b, k);
      assert MapSeq(f, a) == [f(a[0])] + MapSeq(f, a[1..]);
      assert multiset(MapSeq(f, a)) == multiset{f(a[0])} + multiset(MapSeq(f, a[1..]));
    }
  }

  /** A loaded series spans the same dates as the rows it was loaded from. */
  lemma LoadKeepsDayBounds(rows: seq<RawRow>, s: seq<PricePoint>)
    requires Load(rows) == Success(s) && |rows| > 0
    ensures |s| == |rows|
    ensures MinDay(s) == MinDay(rows) && MaxDay(s) == MaxDay(rows)
  {
    var converted := MapSeq(Convert, rows);
    assert multiset(converted) == multiset(s) && |s| == |rows| by {
      LoadedSeriesIsConvertedOrdering(rows);
    }
    assert MinDay(converted) == MinDay(s) && MaxDay(converted) == MaxDay(s) by {
      OrderingKeepsDayBounds(converted, s);
    }
    assert forall i :: 0 <= i < |rows| ==> converted[i].day == rows[i].day by {
      MapSeqPointwise(Convert, rows);
    }
    SameDaysSameBounds(converted, rows);
  }

  /** The load fails exactly when some row's price text does not convert. */
  lemma LoadFailsIffSomePriceIsBad(rows: seq<RawRow>)
    ensures Load(rows).Failure? <==> exists j :: 0 <= j < |rows| && !Parses(rows[j])
    ensures Load(rows).Failure? ==> exists j :: 0 <= j < |rows| && Load(rows).error == NotANumber(rows[j].price)
  {
    var t := SortByDate(rows);
    if exists j :: 0 <= j < |rows| && !Parses(rows[j]) {
      var j :| 0 <= j < |rows| && !Parses(rows[j]);
      assert rows[j] in multiset(t);
    }
    if Load(rows).Failure? {
      var i :| 0 <= i < |t| && !Parses(t[i]) && Load(rows).error == NotANumber(t[i].price);
      assert t[i] in multiset(rows);
    }
  }

  /**
   * A successful load holds every input row once, converted, and is ordered
   * by date.
   */
  lemma LoadedSeriesIsConvertedOrdering(rows: seq<RawRow>)
    requires Load(rows).Success?
    ensures |Load(rows).value| == |rows|
    ensures SortedByDate(Load(rows).value)
    ensures forall j :: 0 <= j < |rows| ==> Parses(rows[j])
    ensures multiset(Load(rows).value) == multiset(MapSeq(Convert, rows))
  {
    var t := SortByDate(rows);
    var s := Load(rows).value;
    LoadFailsIffSomePriceIsBad(rows);
    assert |t| == |multiset(t)| == |multiset(rows)| == |rows|;
    forall i, j | 0 <= i < j < |s|
      ensures s[i].day <= s[j].day
    {
      assert s[i].day == t[i].day && s[j].day == t[j].day;
    }
    MapSeqPointwise(Convert, t);
    assert s == MapSeq(Convert, t);
    MapKeepsPermutation(Convert, t, rows);
  }
}
