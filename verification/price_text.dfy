/**
 * Cleaning and parsing of the `Price` column of a price-history file
 * (app.py line 61): every comma is removed, then the remaining text is
 * converted to a number.  The accepted number syntax is a plain decimal:
 * an optional sign, digits, and an optional fraction after a point.
 */
module PriceText {
  import opened Wrappers

  /** The text with every ',' removed and every other character kept in order. */
  function StripCommas(s: string): (r: string)
    ensures ',' !in r
    ensures |r| <= |s|
  {
    if s == [] then []
    else if s[0] == ',' then StripCommas(s[1..])
    else [s[0]] + StripCommas(s[1..])
  }

  /** Every character other than ',' occurs as often after stripping as before. */
  lemma {:induction false} StripCommasKeepsOtherChars(s: string)
    ensures forall c :: c != ',' ==> multiset(StripCommas(s))[c] == multiset(s)[c]
  {
    if s != [] {
      StripCommasKeepsOtherChars(s[1..]);
      assert s == [s[0]] + s[1..];
    }
  }

  /** `sub` is obtained from `s` by deleting some characters, keeping the order. */
  ghost predicate IsSubsequence(sub: string, s: string)
    decreases |s|
  {
    if sub == [] then true
    else if s == [] then false
    else if sub[0] == s[0] then IsSubsequence(sub[1..], s[1..])
    else IsSubsequence(sub, s[1..])
  }

  lemma {:induction false} StripCommasIsSubsequence(s: string)
    ensures IsSubsequence(StripCommas(s), s)
  {
    if s != [] {
      StripCommasIsSubsequence(s[1..]);
      if s[0] == ',' {
        SubsequenceOfTail(StripCommas(s[1..]), s);
      }
    }
  }

  /** Dropping the first character of `s` keeps every subsequence of its tail. */
  lemma {:induction false} SubsequenceOfTail(sub: string, s: string)
    requires s != []
    requires IsSubsequence(sub, s[1..])
    ensures IsSubsequence(sub, s)
    decreases |s|, |sub|
  {
    if sub != [] && sub[0] == s[0] {
      // sub[1..] is a subsequence of s[1..] because sub is one
      SubsequenceDropHead(sub, s[1..]);
    }
  }

  /** The tail of a subsequence is again a subsequence. */
  lemma {:induction false} SubsequenceDropHead(sub: string, s: string)
    requires sub != []
    requires IsSubsequence(sub, s)
    ensures IsSubsequence(sub[1..], s)
    decreases |s|, |sub|
  {
    if sub[0] == s[0] {
      if sub[1..] != [] {
        SubsequenceOfTail(sub[1..], s);
      }
    } else {
      SubsequenceDropHead(sub, s[1..]);
      if sub[1..] != [] {
        SubsequenceOfTail(sub[1..], s);
      }
    }
  }

  /** Comma removal distributes over concatenation. */
  lemma {:induction false} StripCommasAppend(a: string, b: string)
    ensures StripCommas(a + b) == StripCommas(a) + StripCommas(b)
  {
    if a == [] {
      assert a + b == b;
    } else {
      assert (a + b)[0] == a[0];
      assert (a + b)[1..] == a[1..] + b;
      StripCommasAppend(a[1..], b);
    }
  }

  /** Removing commas twice is the same as removing them once. */
  lemma StripCommasIdempotent(s: string)
    ensures StripCommas(StripCommas(s)) == StripCommas(s)
  {
    NoCommaFixpoint(StripCommas(s));
  }

  /** Text without commas is left unchanged, and only such text is. */
  lemma {:induction false} NoCommaFixpoint(s: string)
    ensures StripCommas(s) == s <==> ',' !in s
  {
    if s != [] {
      NoCommaFixpoint(s[1..]);
      if s[0] == ',' {
        assert |StripCommas(s)| < |s| by {
          assert StripCommas(s) == StripCommas(s[1..]);
        }
      }
    }
  }

  predicate IsDigit(c: char) {
    '0' <= c <= '9'
  }

  predicate AllDigits(s: string) {
    forall i :: 0 <= i < |s| ==> IsDigit(s[i])
  }

  datatype Sign = NoSign | Plus | Minus

  /**
   * The lexical shape of a decimal number: sign, integer digits, whether a
   * decimal point is written, fraction digits.
   */
  datatype Decimal = Decimal(sign: Sign, whole: string, point: bool, fraction: string)

  /** At least one digit overall, digits only, and no fraction without a point. */
  predicate WellFormed(d: Decimal) {
    && AllDigits(d.whole)
    && AllDigits(d.fraction)
    && |d.whole| + |d.fraction| > 0
    && (!d.point ==> d.fraction == [])
  }

  /** The text of a sign: nothing, '+' or '-'. */
  function SignText(sign: Sign): (r: string) {
    match sign
    case NoSign => ""
    case Plus => "+"
    case Minus => "-"
  }

  /** The canonical text of a decimal number. */
  function Render(d: Decimal): (r: string) {
    SignText(d.sign) + d.whole + (if d.point then "." + d.fraction else "")
  }

  /** Position of the first '.' in `s`, if any. */
  function FindPoint(s: string): (r: Option<nat>)
    ensures r.Some? ==> r.value < |s| && s[r.value] == '.'
  {
    if s == [] then None
    else if s[0] == '.' then Some(0)
    else
      match FindPoint(s[1..])
      case None => None
      case Some(i) => Some(i + 1)
  }

  /** The search finds the first point, and finds nothing when there is none. */
  lemma {:induction false} FindPointIsFirst(s: string, i: nat)
    requires i <= |s| && '.' !in s[..i]
    ensures i < |s| && s[i] == '.' ==> FindPoint(s) == Some(i)
    ensures i == |s| ==> FindPoint(s) == None
  {
    if s != [] && i > 0 {
      assert s[0] == s[..i][0];
      assert s[1..][..i - 1] == s[..i][1..];
      FindPointIsFirst(s[1..], i - 1);
    }
  }

  /** The text of a decimal number after its sign. */
  function Unsigned(d: Decimal): (r: string) {
    d.whole + (if d.point then "." + d.fraction else "")
  }

  /** Splits the text after the sign into integer and fraction digits. */
  function LexUnsigned(sign: Sign, body: string): (r: Option<Decimal>)
    ensures r.Some? ==> WellFormed(r.value) && r.value.sign == sign && Unsigned(r.value) == body
  {
    match FindPoint(body)
    case None =>
      if |body| > 0 && AllDigits(body) then Some(Decimal(sign, body, false, [])) else None
    case Some(i) =>
      var d := Decimal(sign, body[..i], true, body[i + 1..]);
      assert body == body[..i] + "." + body[i + 1..];
      if WellFormed(d) then Some(d) else None
  }

  /** Reads the decimal number written as `s`, or None when `s` is not one. */
  function Lex(s: string): (r: Option<Decimal>)
    ensures r.Some? ==> WellFormed(r.value)
    ensures r.Some? ==> (r.value.sign == Minus <==> |s| > 0 && s[0] == '-')
  {
    if |s| > 0 && s[0] == '-' then LexUnsigned(Minus, s[1..])
    else if |s| > 0 && s[0] == '+' then LexUnsigned(Plus, s[1..])
    else LexUnsigned(NoSign, s)
  }

  /** Whatever is read from a text renders back to exactly that text. */
  lemma LexThenRender(s: string)
    ensures Lex(s).Some? ==> WellFormed(Lex(s).value) && Render(Lex(s).value) == s
  {
    if Lex(s).Some? {
      var d := Lex(s).value;
      assert Render(d) == SignText(d.sign) + Unsigned(d);
      if |s| > 0 && s[0] == '-' {
        assert s == SignText(Minus) + s[1..];
      } else if |s| > 0 && s[0] == '+' {
        assert s == SignText(Plus) + s[1..];
      }
    }
  }

  /** Digits contain no decimal point. */
  lemma DigitsHaveNoPoint(s: string)
    requires AllDigits(s)
    ensures '.' !in s
  {
  }

  /** The unsigned text of a well-formed decimal is split back into its parts. */
  lemma UnsignedRoundTrip(d: Decimal)
    requires WellFormed(d)
    ensures LexUnsigned(d.sign, Unsigned(d)) == Some(d)
  {
    var body := Unsigned(d);
    DigitsHaveNoPoint(d.whole);
    if d.point {
      assert body[|d.whole|] == '.';
      assert body[..|d.whole|] == d.whole;
      assert body[|d.whole| + 1..] == d.fraction;
      assert body[..|d.whole|] == d.whole;
      FindPointIsFirst(body, |d.whole|);
    } else {
      assert body == d.whole;
      assert body[..|body|] == body;
      FindPointIsFirst(body, |body|);
    }
  }

  /** Every well-formed decimal is read back from its own text. */
  lemma RenderThenLex(d: Decimal)
    requires WellFormed(d)
    ensures Lex(Render(d)) == Some(d)
  {
    var body := Unsigned(d);
    UnsignedRoundTrip(d);
    assert Render(d) == SignText(d.sign) + body;
    match d.sign
    case NoSign =>
      assert Render(d) == body;
      if d.whole != [] {
        assert body[0] == d.whole[0] && IsDigit(d.whole[0]);
      } else {
        assert body[0] == '.';
      }
    case Plus =>
      assert Render(d)[1..] == body;
    case Minus =>
      assert Render(d)[1..] == body;
  }

  /** Value of a string of decimal digits, most significant first. */
  function DigitsValue(s: string): (r: nat)
    requires AllDigits(s)
  {
    if s == [] then 0
    else DigitsValue(s[..|s| - 1]) * 10 + (s[|s| - 1] as int - '0' as int)
  }

  /** Ten to the power `n`. */
  function Pow10(n: nat): (r: nat)
    ensures r > 0
  {
    if n == 0 then 1 else 10 * Pow10(n - 1)
  }

  /** `n` digits denote less than ten to the power `n`. */
  lemma {:induction false} DigitsBelowPow10(s: string)
    requires AllDigits(s)
    ensures DigitsValue(s) < Pow10(|s|)
  {
    if s != [] {
      var init := s[..|s| - 1];
      DigitsBelowPow10(init);
      assert DigitsValue(s) == DigitsValue(init) * 10 + (s[|s| - 1] as int - '0' as int);
      assert Pow10(|s|) == 10 * Pow10(|init|);
    }
  }

  /** A quotient of a smaller non-negative number by a larger one lies in [0, 1). */
  lemma FractionBelowOne(a: real, b: real)
    requires 0.0 <= a < b
    ensures 0.0 <= a / b < 1.0
  {
    assert a / b * b == a;
  }

  /**
   * The number a well-formed decimal denotes: its integer digits give the
   * whole part, its fraction digits a part below one, and the sign applies
   * to both.
   */
  function Value(d: Decimal): (r: real)
    requires WellFormed(d)
    ensures d.sign != Minus ==> DigitsValue(d.whole) as real <= r < DigitsValue(d.whole) as real + 1.0
    ensures d.sign == Minus ==> -(DigitsValue(d.whole) as real) - 1.0 < r <= -(DigitsValue(d.whole) as real)
  {
    DigitsBelowPow10(d.fraction);
    var whole := DigitsValue(d.whole) as real;
    var part := DigitsValue(d.fraction) as real / Pow10(|d.fraction|) as real;
    FractionBelowOne(DigitsValue(d.fraction) as real, Pow10(|d.fraction|) as real);
    var magnitude := whole + part;
    if d.sign == Minus then -magnitude else magnitude
  }

  /** Appending digits shifts the value of the leading digits by a power of ten. */
  lemma {:induction false} DigitsValueAppend(a: string, b: string)
    requires AllDigits(a) && AllDigits(b)
    ensures AllDigits(a + b)
    ensures DigitsValue(a + b) == DigitsValue(a) * Pow10(|b|) + DigitsValue(b)
  {
    if b == [] {
      assert a + b == a;
    } else {
      var init := b[..|b| - 1];
      var digit := b[|b| - 1] as int - '0' as int;
      DigitsValueAppend(a, init);
      assert DigitsValue(a + b) == DigitsValue(a + init) * 10 + digit by {
        assert (a + b)[..|a + b| - 1] == a + init;
        assert (a + b)[|a + b| - 1] == b[|b| - 1];
      }
      assert DigitsValue(b) == DigitsValue(init) * 10 + digit;
      assert Pow10(|b|) == Pow10(|init|) * 10;
      ShiftByTen(DigitsValue(a), Pow10(|init|), DigitsValue(init), digit);
    }
  }

  /** One more digit multiplies both the shifted prefix and the suffix by ten. */
  lemma ShiftByTen(v: int, p: int, w: int, c: int)
    ensures (v * p + w) * 10 + c == v * (p * 10) + (w * 10 + c)
  {
  }

  /** Scaling a whole part plus a fraction over `p` by `p` clears the fraction. */
  lemma MagnitudeScales(w: real, f: real, p: real)
    requires p > 0.0
    ensures (w + f / p) * p == w * p + f
  {
    assert f / p * p == f;
  }

  /** Converting to a real commutes with the shift by a power of ten. */
  lemma ShiftAsReal(w: int, p: int, f: int)
    ensures (w * p + f) as real == w as real * p as real + f as real
  {
  }

  /** The value of a decimal is its magnitude with its sign applied. */
  lemma ValueHasMagnitude(d: Decimal)
    requires WellFormed(d)
    ensures var m := DigitsValue(d.whole) as real + DigitsValue(d.fraction) as real / Pow10(|d.fraction|) as real;
      Value(d) == if d.sign == Minus then -m else m
  {
  }

  /** `x` with its decimal point moved `n` places to the right. */
  function Shift(x: real, n: nat): (r: real) {
    x * Pow10(n) as real
  }

  /**
   * The exact value of a decimal: with its point moved past every fraction
   * digit, it is the integer written by all its digits, with its sign.
   */
  lemma ValueIsExact(d: Decimal)
    requires WellFormed(d)
    ensures AllDigits(d.whole + d.fraction)
    ensures d.sign != Minus ==> Shift(Value(d), |d.fraction|) == DigitsValue(d.whole + d.fraction) as real
    ensures d.sign == Minus ==> Shift(Value(d), |d.fraction|) == -(DigitsValue(d.whole + d.fraction) as real)
  {
    DigitsValueAppend(d.whole, d.fraction);
    ValueHasMagnitude(d);
    ExactFromParts(Value(d), DigitsValue(d.whole), DigitsValue(d.fraction), |d.fraction|,
                   DigitsValue(d.whole + d.fraction), d.sign == Minus);
  }

  /**
   * A signed magnitude `w + f / 10^n`, shifted by `n` places, is the signed
   * integer `w * 10^n + f`.
   */
  lemma ExactFromParts(v: real, w: int, f: int, n: nat, all: int, negative: bool)
    requires all == w * Pow10(n) + f
    requires v == if negative then -(w as real + f as real / Pow10(n) as real) else w as real + f as real / Pow10(n) as real
    ensures Shift(v, n) == if negative then -(all as real) else all as real
  {
    var p := Pow10(n);
    var m := w as real + f as real / p as real;
    MagnitudeScales(w as real, f as real, p as real);
    ShiftAsReal(w, p, f);
    assert m * p as real == all as real;
    SignedScale(v, m, p as real, all as real, negative);
  }

  /** Applying a sign commutes with scaling. */
  lemma SignedScale(v: real, m: real, p: real, a: real, negative: bool)
    requires v == (if negative then -m else m) && m * p == a
    ensures v * p == (if negative then -a else a)
  {
    if negative {
      assert v * p == -(m * p);
    }
  }

  /**
   * A price text as stored in the file: commas removed, then read as a
   * decimal number.  None means the conversion to float fails.
   */
  function ParsePrice(text: string): (r: Option<real>)
    ensures r.Some? <==> Lex(StripCommas(text)).Some?
  {
    match Lex(StripCommas(text))
    case None => None
    case Some(d) => Some(Value(d))
  }

  /** The text of a well-formed decimal contains no comma. */
  lemma RenderHasNoComma(d: Decimal)
    requires WellFormed(d)
    ensures ',' !in Render(d)
  {
  }

  /** The canonical text of a decimal is read as the price it denotes. */
  lemma RenderedPriceParses(d: Decimal)
    requires WellFormed(d)
    ensures ParsePrice(Render(d)) == Some(Value(d))
  {
    RenderHasNoComma(d);
    NoCommaFixpoint(Render(d));
    RenderThenLex(d);
  }

  /** A comma anywhere in the price text has no effect on the number read. */
  lemma CommaIsIgnored(a: string, b: string)
    ensures ParsePrice(a + "," + b) == ParsePrice(a + b)
  {
    assert StripCommas(a + "," + b) == StripCommas(a + b) by {
      assert StripCommas(",") == "";
      StripCommasAppend(a + ",", b);
      StripCommasAppend(a, ",");
      StripCommasAppend(a, b);
    }
  }
}
