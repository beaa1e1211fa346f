/** Field parsers of src/utils.py (`parse_date`, `parse_amount`), and the
    text normaliser that src/categories.py expects to find there. */
module Utils {
  import opened Wrappers
  import opened Text

  // ---------------------------------------------------------------- dates

  /** A calendar date (Python's `datetime.date`), no time component. */
  datatype Date = Date(year: int, month: int, day: int)

  /** Proleptic Gregorian leap years. */
  predicate IsLeapYear(y: int)
  {
    y % 4 == 0 && (y % 100 != 0 || y % 400 == 0)
  }

  function DaysInMonth(y: int, m: int): (n: int)
    requires 1 <= m <= 12
    ensures 28 <= n <= 31
    ensures n == 29 <==> m == 2 && IsLeapYear(y)
  {
    if m == 2 then (if IsLeapYear(y) then 29 else 28)
    else if m == 4 || m == 6 || m == 9 || m == 11 then 30
    else 31
  }

  /** A day that `datetime.date` can represent: years 1 to 9999, a real
      month, and a real day of that month. */
  predicate ValidDate(d: Date)
  {
    1 <= d.year <= 9999 && 1 <= d.month <= 12 && 1 <= d.day <= DaysInMonth(d.year, d.month)
  }

  /** The zero-padded `YYYY-MM-DD` text of a date (`date.isoformat()`). */
  function FormatDate(d: Date): (s: string)
    requires ValidDate(d)
    ensures |s| == 10 && s[4] == '-' && s[7] == '-'
  {
    PaddedDigits(d.year, 4) + "-" + PaddedDigits(d.month, 2) + "-" + PaddedDigits(d.day, 2)
  }

  /** `datetime.strptime(s, "%Y-%m-%d").date()`, with failure as `None`:
      four year digits, dash, two month digits, dash, two day digits, naming
      a day that exists. */
  function ParseDate(s: string): Option<Date>
  {
    if |s| == 10 && s[4] == '-' && s[7] == '-'
      && AllDigits(s[0..4]) && AllDigits(s[5..7]) && AllDigits(s[8..10])
    then
      var d := Date(DigitsValue(s[0..4]), DigitsValue(s[5..7]), DigitsValue(s[8..10]));
      if ValidDate(d) then Some(d) else None
    else None
  }

  /** Whatever `ParseDate` accepts is a real calendar day whose zero-padded
      text is the input. */
  lemma ParseDateSound(s: string)
    ensures ParseDate(s).Some? ==> ValidDate(ParseDate(s).value) && FormatDate(ParseDate(s).value) == s
  {
    if ParseDate(s).Some? {
      var d := ParseDate(s).value;
      assert d.year == DigitsValue(s[0..4]);
      DigitsValuePadded(s[0..4]);
      DigitsValuePadded(s[5..7]);
      DigitsValuePadded(s[8..10]);
      assert s == s[0..4] + "-" + s[5..7] + "-" + s[8..10];
    }
  }

  /** Every real calendar day is accepted in its zero-padded form, and parses
      back to itself. */
  lemma ParseFormatRoundTrip(d: Date)
    requires ValidDate(d)
    ensures ParseDate(FormatDate(d)) == Some(d)
  {
    var s := FormatDate(d);
    var y, m, dd := PaddedDigits(d.year, 4), PaddedDigits(d.month, 2), PaddedDigits(d.day, 2);
    assert s[0..4] == y && s[5..7] == m && s[8..10] == dd;
    PaddedDigitsValue(d.year, 4);
    PaddedDigitsValue(d.month, 2);
    PaddedDigitsValue(d.day, 2);
  }

  /** Feb 29 of a year is accepted exactly when the year is a Gregorian leap year. */
  lemma Feb29AcceptedIffLeap(y: int)
    requires 1 <= y <= 9999
    ensures ParseDate(PaddedDigits(y, 4) + "-02-29").Some? <==> IsLeapYear(y)
  {
    var s := PaddedDigits(y, 4) + "-02-29";
    assert s[0..4] == PaddedDigits(y, 4);
    PaddedDigitsValue(y, 4);
    assert s[5..7] == "02" && s[8..10] == "29";
    DigitsValueTwo("02");
    DigitsValueTwo("29");
  }

  lemma DigitsValueTwo(s: string)
    requires |s| == 2 && AllDigits(s)
    ensures DigitsValue(s) == 10 * DigitValue(s[0]) + DigitValue(s[1])
  {
    assert s[..1][..0] == [];
  }

  lemma DigitsValueFour(s: string)
    requires |s| == 4 && AllDigits(s)
    ensures DigitsValue(s) == 1000 * DigitValue(s[0]) + 100 * DigitValue(s[1]) + 10 * DigitValue(s[2]) + DigitValue(s[3])
  {
    DigitsValueTwo(s[..2]);
    assert s[..3][..2] == s[..2];
  }

  /** A dashed ten-character text of digits parses to the day its digits
      spell, when that day exists. */
  lemma ParseDateByDigits(s: string)
    requires |s| == 10 && s[4] == '-' && s[7] == '-'
    requires forall k :: 0 <= k < 10 && k != 4 && k != 7 ==> IsDigit(s[k])
    ensures var d := Date(1000 * DigitValue(s[0]) + 100 * DigitValue(s[1]) + 10 * DigitValue(s[2]) + DigitValue(s[3]),
                          10 * DigitValue(s[5]) + DigitValue(s[6]), 10 * DigitValue(s[8]) + DigitValue(s[9]));
      ParseDate(s) == if ValidDate(d) then Some(d) else None
  {
    DigitsValueFour(s[0..4]);
    DigitsValueTwo(s[5..7]);
    DigitsValueTwo(s[8..10]);
  }

  /** Texts that are not `YYYY-MM-DD`: the empty text, another separator. */
  lemma ParseDateRejectsMalformedExamples()
    ensures ParseDate("") == None
    ensures ParseDate("2023/01/15") == None
  {
    var s := "2023/01/15";
    assert s[4] != '-';
  }

  /** Days that do not exist: month 13, day 32. */
  lemma ParseDateRejectsOutOfRangeExamples()
    ensures ParseDate("2023-13-01") == None
    ensures ParseDate("2023-01-32") == None
  {
    ParseDateByDigits("2023-13-01");
    ParseDateByDigits("2023-01-32");
  }

  /** Days that do not exist: 30 February, and year zero (`datetime`
      starts at year 1). */
  lemma ParseDateRejectsMissingDayExamples()
    ensures ParseDate("2023-02-30") == None
    ensures ParseDate("0000-01-01") == None
  {
    ParseDateByDigits("2023-02-30");
    ParseDateByDigits("0000-01-01");
  }

  lemma ParseDateAcceptsExample()
    ensures ParseDate("2024-03-15") == Some(Date(2024, 3, 15))
  {
    ParseDateByDigits("2024-03-15");
  }

  /** The leap day of a leap year is accepted. */
  lemma LeapDay2024Accepted()
    ensures ParseDate("2024-02-29") == Some(Date(2024, 2, 29))
  {
    ParseDateByDigits("2024-02-29");
  }

  /** The leap day of a year divisible by 400 is accepted. */
  lemma LeapDay2000Accepted()
    ensures ParseDate("2000-02-29") == Some(Date(2000, 2, 29))
  {
    ParseDateByDigits("2000-02-29");
  }

  /** The leap day of a common year is rejected. */
  lemma LeapDay2023Rejected()
    ensures ParseDate("2023-02-29") == None
  {
    ParseDateByDigits("2023-02-29");
  }

  /** The leap day of a year divisible by 100 but not by 400 is rejected. */
  lemma LeapDay1900Rejected()
    ensures ParseDate("1900-02-29") == None
  {
    ParseDateByDigits("1900-02-29");
  }

  // -------------------------------------------------------------- amounts

  datatype Sign = NoSign | Plus | Minus

  /** A plain decimal literal: optional sign, integer digits, optionally a
      point followed by fraction digits; at least one digit in all. */
  datatype DecimalLiteral = DecimalLiteral(sign: Sign, whole: string, point: bool, frac: string)

  predicate WellFormed(d: DecimalLiteral)
  {
    AllDigits(d.whole) && AllDigits(d.frac) && |d.whole| + |d.frac| >= 1
    && (!d.point ==> d.frac == [])
  }

  function SignText(sg: Sign): string
  {
    match sg case NoSign => "" case Plus => "+" case Minus => "-"
  }

  /** The unsigned part of a literal's text. */
  function Body(d: DecimalLiteral): string
  {
    d.whole + (if d.point then "." + d.frac else "")
  }

  /** The text of a literal. */
  function Render(d: DecimalLiteral): string
  {
    SignText(d.sign) + Body(d)
  }

  /** The value of the digits after a decimal point: `0.d1 d2 ...`. */
  function FracValue(s: string): (v: real)
    requires AllDigits(s)
    ensures 0.0 <= v < 1.0
  {
    if s == [] then 0.0 else (DigitValue(s[0]) as real + FracValue(s[1..])) / 10.0
  }

  /** The number a literal denotes. */
  function Value(d: DecimalLiteral): real
    requires WellFormed(d)
  {
    var magnitude := DigitsValue(d.whole) as real + FracValue(d.frac);
    if d.sign == Minus then -magnitude else magnitude
  }

  /** Position of the first `c` in `s`, or `|s|` if there is none. */
  function IndexOf(s: string, c: char): (i: nat)
    ensures i <= |s| && (i < |s| ==> s[i] == c)
    ensures forall k :: 0 <= k < i ==> s[k] != c
  {
    if s == [] then 0 else if s[0] == c then 0 else 1 + IndexOf(s[1..], c)
  }

  /** The sign an amount text starts with. */
  function SignOf(s: string): (sg: Sign)
    ensures |SignText(sg)| <= |s| && s[..|SignText(sg)|] == SignText(sg)
  {
    if s != [] && s[0] == '-' then Minus else if s != [] && s[0] == '+' then Plus else NoSign
  }

  /** Cuts an unsigned amount text at its first point. */
  function SplitAtPoint(sg: Sign, body: string): DecimalLiteral
  {
    var p := IndexOf(body, '.');
    if p == |body| then DecimalLiteral(sg, body, false, "")
    else DecimalLiteral(sg, body[..p], true, body[p + 1..])
  }

  /** Splits an amount text into a decimal literal, if it is one. */
  function LexDecimal(s: string): Option<DecimalLiteral>
  {
    var sg := SignOf(s);
    var d := SplitAtPoint(sg, s[|SignText(sg)|..]);
    if WellFormed(d) then Some(d) else None
  }

  /** `float(s)` restricted to plain decimal literals, with failure as `None`. */
  function ParseAmount(s: string): Option<real>
  {
    match LexDecimal(s)
    case Some(d) => Some(Value(d))
    case None => None
  }

  lemma SplitBody(d: DecimalLiteral)
    requires WellFormed(d)
    ensures SplitAtPoint(d.sign, Body(d)) == d
  {
    var body := Body(d);
    var p := IndexOf(body, '.');
    if d.point {
      assert body[|d.whole|] == '.';
      assert forall k :: 0 <= k < |d.whole| ==> body[k] == d.whole[k];
      assert p == |d.whole|;
      assert body[..p] == d.whole && body[p + 1..] == d.frac;
    } else {
      assert p == |body|;
    }
  }

  lemma SignOfRender(d: DecimalLiteral)
    requires WellFormed(d)
    ensures SignOf(Render(d)) == d.sign
  {
    var body := Body(d);
    assert body[0] == '.' || IsDigit(body[0]);
    assert Render(d)[|SignText(d.sign)|] == body[0];
  }

  /** Every well-formed literal is accepted, with the value it denotes. */
  lemma ParseRenderRoundTrip(d: DecimalLiteral)
    requires WellFormed(d)
    ensures LexDecimal(Render(d)) == Some(d)
    ensures ParseAmount(Render(d)) == Some(Value(d))
  {
    SignOfRender(d);
    assert Render(d)[|SignText(d.sign)|..] == Body(d);
    SplitBody(d);
  }

  lemma SplitAtPointBody(sg: Sign, body: string)
    ensures SplitAtPoint(sg, body).sign == sg && Body(SplitAtPoint(sg, body)) == body
  {
    var p := IndexOf(body, '.');
    if p < |body| {
      assert body == body[..p] + "." + body[p + 1..];
    }
  }

  /** Whatever is accepted is the text of a well-formed literal, and the
      result is that literal's value. */
  lemma LexDecimalSound(s: string)
    ensures LexDecimal(s).Some? ==> WellFormed(LexDecimal(s).value) && Render(LexDecimal(s).value) == s
    ensures ParseAmount(s).Some? ==> LexDecimal(s).Some? && ParseAmount(s).value == Value(LexDecimal(s).value)
  {
    var sg := SignOf(s);
    var n := |SignText(sg)|;
    SplitAtPointBody(sg, s[n..]);
    assert s == s[..n] + s[n..];
  }

  /** The characters a plain decimal literal is written with. */
  predicate NumericChar(c: char)
  {
    IsDigit(c) || c == '.' || c == '+' || c == '-'
  }

  /** The unsigned part holds digits and at most one point, right after the
      integer digits. */
  lemma BodyCharacters(d: DecimalLiteral)
    requires WellFormed(d)
    ensures forall k :: 0 <= k < |Body(d)| ==> IsDigit(Body(d)[k]) || Body(d)[k] == '.'
    ensures forall k :: 0 <= k < |Body(d)| && Body(d)[k] == '.' ==> k == |d.whole|
  {
    var body := Body(d);
    forall k | 0 <= k < |body| ensures (IsDigit(body[k]) || body[k] == '.') && (body[k] == '.' ==> k == |d.whole|) {
      if k < |d.whole| {
        assert body[k] == d.whole[k];
      } else if k > |d.whole| {
        assert body[k] == d.frac[k - |d.whole| - 1];
      }
    }
  }

  /** The text of a literal: numeric characters, at least one digit, a sign
      only in front and at most one point. */
  lemma RenderCharacters(d: DecimalLiteral)
    requires WellFormed(d)
    ensures forall k :: 0 <= k < |Render(d)| ==> NumericChar(Render(d)[k])
    ensures exists k :: 0 <= k < |Render(d)| && IsDigit(Render(d)[k])
    ensures forall k :: 0 < k < |Render(d)| ==> Render(d)[k] != '+' && Render(d)[k] != '-'
    ensures forall k :: 0 <= k < |Render(d)| && Render(d)[k] == '.' ==> k == |SignText(d.sign)| + |d.whole|
  {
    var body := Body(d);
    var r := Render(d);
    var n := |SignText(d.sign)|;
    BodyCharacters(d);
    forall k | 0 <= k < |r|
      ensures NumericChar(r[k])
      ensures k > 0 ==> r[k] != '+' && r[k] != '-'
      ensures r[k] == '.' ==> k == n + |d.whole|
    {
      if k >= n {
        assert r[k] == body[k - n];
      }
    }
    if |d.whole| > 0 {
      assert r[n] == d.whole[0];
    } else {
      assert r[n + 1] == d.frac[0];
    }
  }

  /** Non-numeric text is rejected: an accepted amount consists only of
      digits, points and signs, holds at least one digit, has a sign only as
      its first character, and has at most one point. */
  lemma ParseAmountRejectsNonNumeric(s: string)
    ensures ParseAmount(s).Some? ==> forall k :: 0 <= k < |s| ==> NumericChar(s[k])
    ensures ParseAmount(s).Some? ==> exists k :: 0 <= k < |s| && IsDigit(s[k])
    ensures ParseAmount(s).Some? ==> forall k :: 0 < k < |s| ==> s[k] != '+' && s[k] != '-'
    ensures ParseAmount(s).Some? ==> forall i, j :: 0 <= i < j < |s| ==> !(s[i] == '.' && s[j] == '.')
  {
    LexDecimalSound(s);
    if ParseAmount(s).Some? {
      RenderCharacters(LexDecimal(s).value);
    }
  }

  /** The text of a literal parses to the literal's value. */
  lemma ParsesRendered(d: DecimalLiteral, s: string)
    requires WellFormed(d) && Render(d) == s
    ensures ParseAmount(s) == Some(Value(d))
  {
    ParseRenderRoundTrip(d);
  }

  lemma IncomeLiteralValue()
    ensures Value(DecimalLiteral(NoSign, "2500", true, "00")) == 2500.0
  {
    DigitsValueFour("2500");
    assert FracValue("00") == 0.0;
  }

  /** An income amount as a bank export writes it. */
  lemma ParseAmountIncomeExample()
    ensures ParseAmount("2500.00") == Some(2500.0)
  {
    var d := DecimalLiteral(NoSign, "2500", true, "00");
    assert Render(d) == "2500.00";
    ParsesRendered(d, "2500.00");
    IncomeLiteralValue();
  }

  lemma ExpenseLiteralValue()
    ensures Value(DecimalLiteral(Minus, "60", true, "00")) == -60.0
  {
    DigitsValueTwo("60");
    assert FracValue("00") == 0.0;
  }

  /** An expense amount as a bank export writes it. */
  lemma ParseAmountExpenseExample()
    ensures ParseAmount("-60.00") == Some(-60.0)
  {
    var d := DecimalLiteral(Minus, "60", true, "00");
    assert Render(d) == "-60.00";
    ParsesRendered(d, "-60.00");
    ExpenseLiteralValue();
  }

  /** A sign or a point alone, and the empty text, are not numbers. */
  lemma ParseAmountRejectsEmptyExamples()
    ensures ParseAmount("") == None
    ensures ParseAmount("-") == None
    ensures ParseAmount(".") == None
  {
  }

  /** Letters are not numbers. */
  lemma ParseAmountRejectsLettersExample()
    ensures ParseAmount("abc") == None
  {
    ParseAmountRejectsNonNumeric("abc");
    assert !NumericChar("abc"[0]);
  }

  /** A second point makes the fraction part non-numeric. */
  lemma ParseAmountRejectsTwoPointsExample()
    ensures ParseAmount("1.2.3") == None
  {
    var t := "1.2.3";
    assert SignOf(t) == NoSign && t[0..] == t;
    assert IndexOf(t, '.') == 1;
    var d := SplitAtPoint(NoSign, t);
    assert d.frac == t[2..] && d.frac[1] == '.';
  }

  // ---------------------------------------------------- text normalising

  /** The characters `normalize_text` keeps: lower-case ASCII letters, digits
      and whitespace. */
  predicate Kept(c: char)
  {
    'a' <= c <= 'z' || IsDigit(c) || IsSpace(c)
  }

  function KeepOnly(s: string): (r: string)
    ensures |r| <= |s| && forall k :: 0 <= k < |r| ==> Kept(r[k])
    ensures (forall k :: 0 <= k < |s| ==> Kept(s[k])) ==> r == s
  {
    if s == [] then [] else (if Kept(s[0]) then [s[0]] else []) + KeepOnly(s[1..])
  }

  /** The intended `normalize_text`: lower-case, then delete every character
      that is not a lower-case ASCII letter, a digit or whitespace, without
      substituting or collapsing anything. */
  function NormalizeText(s: string): (r: string)
    ensures |r| <= |s| && forall k :: 0 <= k < |r| ==> Kept(r[k])
  {
    KeepOnly(Lower(s))
  }

  /** Normalising twice is normalising once. */
  lemma NormalizeIdempotent(s: string)
    ensures NormalizeText(NormalizeText(s)) == NormalizeText(s)
  {
    var r := NormalizeText(s);
    assert Lower(r) == r;
  }

  /** Text that is already lower-case letters, digits and spaces is left as it is. */
  lemma NormalizeKeepsPlainText(s: string)
    requires forall k :: 0 <= k < |s| ==> Kept(s[k])
    ensures NormalizeText(s) == s
  {
    assert Lower(s) == s;
  }

  /** A text whose lower-cased characters are all kept normalises to its
      lower-cased form. */
  lemma NormalizeIsLowerWhenAllKept(s: string)
    requires forall k :: 0 <= k < |Lower(s)| ==> Kept(Lower(s)[k])
    ensures NormalizeText(s) == Lower(s)
  {
  }
}
