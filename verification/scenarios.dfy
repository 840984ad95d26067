/**
 * Concrete loads worked through the model: what the dashboard shows for a
 * few small price files.
 */
module Scenarios {
  import opened Wrappers
  import opened PriceText
  import opened Series
  import opened Metrics
  import opened DateRange
  import opened Dashboard

  /** Thousands separators are removed before the number is read. */
  lemma ThousandsSeparatorIsRemoved()
    ensures ParsePrice("1,234.50") == Some(1234.5)
  {
    SameAfterStripping();
    PriceOf1234Point50();
  }

  lemma SameAfterStripping()
    ensures ParsePrice("1,234.50") == ParsePrice("1234.50")
  {
    StripOf1234Point50();
  }

  lemma StripOf1234Point50()
    ensures StripCommas("1,234.50") == "1234.50"
  {
    assert "1,234.50" == "1," + "234.50";
    StripCommasAppend("1,", "234.50");
    NoCommaFixpoint("234.50");
  }

  lemma PriceOf1234Point50()
    ensures ParsePrice("1234.50") == Some(1234.5)
  {
    var d := Decimal(NoSign, "1234", true, "50");
    assert Render(d) == "1234.50";
    RenderedPriceParses(d);
    DigitsOf1234();
    FractionOf50();
  }

  lemma DigitsOf1234()
    ensures DigitsValue("1234") == 1234
  {
    assert "1234"[..3] == "123" && "123"[..2] == "12" && "12"[..1] == "1" && "1"[..0] == "";
    assert DigitsValue("1") == 1;
    assert DigitsValue("12") == 12;
    assert DigitsValue("123") == 123;
  }

  lemma FractionOf50()
    ensures DigitsValue("50") as real / Pow10(|"50"|) as real == 0.5
  {
    assert "50"[..1] == "5" && "5"[..0] == "";
    assert DigitsValue("5") == 5;
    assert DigitsValue("50") == 50;
    assert Pow10(2) == 100;
  }

  /** A word is not a price. */
  lemma WordIsNotAPrice()
    ensures ParsePrice("abc") == None
  {
    assert StripCommas("abc") == "abc";
    assert !IsDigit('a');
  }

  /** One price that does not convert aborts the whole load. */
  lemma BadRowAbortsLoad()
    ensures Show([Row(1, "100"), Row(2, "abc")], DefaultBounds) == LoadFailed(NotANumber("abc"))
  {
    WordIsNotAPrice();
    PriceOf100();
    SortPair(Row(1, "100"), Row(2, "abc"));
    assert [Row(1, "100"), Row(2, "abc")][1..] == [Row(2, "abc")];
  }

  /** A three-digit whole number is read as its value. */
  lemma PriceOfThreeDigits(text: string)
    requires |text| == 3 && AllDigits(text)
    ensures ParsePrice(text) == Some(DigitsValue(text) as real)
  {
    var d := Decimal(NoSign, text, false, "");
    assert Render(d) == text;
    RenderedPriceParses(d);
    WholeNumberValue(d);
  }

  /** An unsigned whole number denotes the value of its digits. */
  lemma WholeNumberValue(d: Decimal)
    requires WellFormed(d) && d.sign == NoSign && d.fraction == []
    ensures Value(d) == DigitsValue(d.whole) as real
  {
    assert DigitsValue(d.fraction) == 0 && Pow10(|d.fraction|) == 1;
    assert 0 as real / 1 as real == 0.0;
  }

  lemma DigitsOfThree(text: string)
    requires |text| == 3 && AllDigits(text)
    ensures DigitsValue(text) == (text[0] as int - '0' as int) * 100 + (text[1] as int - '0' as int) * 10 + (text[2] as int - '0' as int)
  {
    var a, b := text[..2], text[..1];
    assert text[..|text| - 1] == a && a[..|a| - 1] == b && b[..|b| - 1] == [];
    assert a[|a| - 1] == text[1] && b[|b| - 1] == text[0];
    assert DigitsValue(b) == text[0] as int - '0' as int;
    assert DigitsValue(a) == DigitsValue(b) * 10 + (text[1] as int - '0' as int);
  }

  lemma PriceOf100()
    ensures ParsePrice("100") == Some(100.0)
  {
    PriceOfThreeDigits("100");
    DigitsOfThree("100");
  }

  lemma PriceOf110()
    ensures ParsePrice("110") == Some(110.0)
  {
    PriceOfThreeDigits("110");
    DigitsOfThree("110");
  }

  /** A one-digit whole number is read as its value. */
  lemma PriceOfDigit(text: string, value: nat)
    requires |text| == 1 && IsDigit(text[0]) && value == text[0] as int - '0' as int
    ensures ParsePrice(text) == Some(value as real)
  {
    var d := Decimal(NoSign, text, false, "");
    assert Render(d) == text;
    RenderedPriceParses(d);
    assert text[..0] == "";
  }

  /** Two rows are put in date order by swapping them when needed. */
  lemma SortPair<P>(x: Row<P>, y: Row<P>)
    ensures SortByDate([x, y]) == if x.day <= y.day then [x, y] else [y, x]
  {
    assert [x, y][1..] == [y];
    assert [y][1..] == [];
    assert SortByDate([y]) == [y];
  }

  /** A row whose price converts loads on its own. */
  lemma ConvertSingle(x: RawRow)
    requires Parses(x)
    ensures ConvertAll([x]) == Success([Convert(x)])
  {
    assert [x][1..] == [];
    assert ConvertAll([]) == Success([]);
    assert [Convert(x)] + [] == [Convert(x)];
  }

  /** Two rows whose prices convert load in order. */
  lemma ConvertPair(x: RawRow, y: RawRow)
    requires Parses(x) && Parses(y)
    ensures ConvertAll([x, y]) == Success([Convert(x), Convert(y)])
  {
    assert [x, y][1..] == [y];
    ConvertSingle(y);
    assert [Convert(x)] + [Convert(y)] == [Convert(x), Convert(y)];
  }

  /** Two rows whose prices convert load as their date ordering. */
  lemma LoadPair(x: RawRow, y: RawRow)
    requires Parses(x) && Parses(y) && x.day > y.day
    ensures Load([x, y]) == Success([Convert(y), Convert(x)])
  {
    SortPair(x, y);
    ConvertPair(y, x);
  }

  /** What a successful, non-empty load shows with the default dates. */
  lemma ShowOfLoaded(rows: seq<RawRow>, s: seq<PricePoint>)
    requires Load(rows) == Success(s) && |s| > 0
    ensures Show(rows, DefaultBounds)
         == Shown(s[|s| - 1].price, PriceChange(s), s, MinDay(s), MaxDay(s), FilterByDate(s, MinDay(s), MaxDay(s)))
  {
  }

  /**
   * Prices 100 then 110, given out of date order: the rows are reordered,
   * the change is 10, or 10 percent, and shows as a rise.
   */
  lemma RisingPairShowsUp()
    ensures Show([Row(2, "110"), Row(1, "100")], DefaultBounds)
         == Shown(110.0, Changed(10.0, Finite(10.0), Up), [Row(1, 100.0), Row(2, 110.0)],
                  1, 2, [Row(1, 100.0), Row(2, 110.0)])
  {
    PriceOf100();
    PriceOf110();
    var s := [Row(1, 100.0), Row(2, 110.0)];
    LoadPair(Row(2, "110"), Row(1, "100"));
    ShowOfLoaded([Row(2, "110"), Row(1, "100")], s);
    RisingPairBounds(s);
    RisingPairChange(s);
  }

  lemma RisingPairBounds(s: seq<PricePoint>)
    requires s == [Row(1, 100.0), Row(2, 110.0)]
    ensures MinDay(s) == 1 && MaxDay(s) == 2 && FilterByDate(s, 1, 2) == s
  {
    SortedEnds(s);
    WideRangeKeepsAll(s, 1, 2);
  }

  lemma RisingPairChange(s: seq<PricePoint>)
    requires s == [Row(1, 100.0), Row(2, 110.0)]
    ensures PriceChange(s) == Changed(10.0, Finite(10.0), Up)
  {
    assert (110.0 - 100.0) / 100.0 * 100.0 == 10.0;
  }

  /** A single row shows its price but no change. */
  lemma SingleRowHasNoChange()
    ensures Show([Row(7, "100")], DefaultBounds).Shown?
         && Show([Row(7, "100")], DefaultBounds).latest == 100.0
         && Show([Row(7, "100")], DefaultBounds).change == Unable
  {
    PriceOf100();
    assert SortByDate([Row(7, "100")]) == [Row(7, "100")];
    ConvertSingle(Row(7, "100"));
  }

  /**
   * A previous price of 0 followed by 5: the change is 5 and shows as a
   * rise, while the percentage is the infinity of a division by zero.
   */
  lemma ZeroPreviousGivesInfinity()
    ensures Show([Row(2, "5"), Row(1, "0")], DefaultBounds).Shown?
         && Show([Row(2, "5"), Row(1, "0")], DefaultBounds).change == Changed(5.0, PosInf, Up)
  {
    PriceOfDigit("0", 0);
    PriceOfDigit("5", 5);
    LoadPair(Row(2, "5"), Row(1, "0"));
    assert PriceChange([Row(1, 0.0), Row(2, 5.0)]) == Changed(5.0, PosInf, Up);
  }
}
