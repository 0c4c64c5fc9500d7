/** The pure input validators of fairshare.py: user names, expense titles, costs and dates.
    Each returns its input (or the parsed cost) or fails with one error kind. */
module Validation {
  import opened Errors
  import opened Text

  // ---------------------------------------------------------------- names and titles

  /** Python's `int(s)` succeeds: optional surrounding whitespace, an optional sign and at
      least one ASCII digit. */
  predicate IsIntLiteral(s: string) {
    var t := Strip(s);
    if |t| > 0 && (t[0] == '+' || t[0] == '-') then |t| > 1 && AllDigits(t[1..])
    else |t| > 0 && AllDigits(t)
  }

  /** `s` is non-empty and neither starts nor ends with whitespace. */
  predicate IsTrimmedWord(s: string) {
    |s| > 0 && !IsSpace(s[0]) && !IsSpace(s[|s| - 1])
  }

  /** validate_username: checks, in order, surrounding whitespace, emptiness, commas and
      numbers; it does not check uniqueness. */
  function ValidateUsername(name: string): (r: Result<string>)
    ensures r.Ok? <==> IsTrimmedWord(name) && ',' !in name && !IsIntLiteral(name)
    ensures r.Ok? ==> r.value == name
    ensures |name| > 0 && (IsSpace(name[0]) || IsSpace(name[|name| - 1])) ==>
              r == Err(IllegalUsername(SurroundingWhitespace))
    ensures name == [] ==> r == Err(IllegalUsername(Blank))
    ensures IsTrimmedWord(name) && ',' in name ==> r == Err(IllegalUsername(ContainsComma))
    ensures IsTrimmedWord(name) && ',' !in name && IsIntLiteral(name) ==>
              r == Err(IllegalUsername(IsNumber))
  {
    if name != Strip(name) then
      StripChecks(name);
      Err(IllegalUsername(SurroundingWhitespace))
    else if IsBlank(name) then
      StripChecks(name);
      Err(IllegalUsername(Blank))
    else
      StripChecks(name);
      if ',' in name then Err(IllegalUsername(ContainsComma))
      else if IsIntLiteral(name) then Err(IllegalUsername(IsNumber))
      else Ok(name)
  }

  /** validate_expense_title: the first two checks of the user-name validator. */
  function ValidateExpenseTitle(title: string): (r: Result<string>)
    ensures r.Ok? <==> IsTrimmedWord(title)
    ensures r.Ok? ==> r.value == title
    ensures |title| > 0 && (IsSpace(title[0]) || IsSpace(title[|title| - 1])) ==>
              r == Err(IllegalExpenseTitle(SurroundingWhitespace))
    ensures title == [] ==> r == Err(IllegalExpenseTitle(Blank))
  {
    if title != Strip(title) then
      StripChecks(title);
      Err(IllegalExpenseTitle(SurroundingWhitespace))
    else if IsBlank(title) then
      StripChecks(title);
      Err(IllegalExpenseTitle(Blank))
    else
      StripChecks(title);
      Ok(title)
  }

  /** Valid user names are exactly the valid titles without a comma that are not numbers. */
  lemma UsernameIsRestrictedTitle(s: string)
    ensures ValidateUsername(s).Ok? <==>
              ValidateExpenseTitle(s).Ok? && ',' !in s && !IsIntLiteral(s)
  {
  }

  /** No decimal numeral, signed or not, is a valid user name. */
  lemma {:induction false} NumeralIsNotUsername(n: nat, sign: string)
    requires sign in ["", "-", "+"]
    ensures ValidateUsername(sign + ShowNat(n)) == Err(IllegalUsername(IsNumber))
  {
    SignedDigits(sign, ShowNat(n));
  }

  /** A sign followed by digits is a trimmed, comma-free integer literal. */
  lemma SignedDigits(sign: string, d: string)
    requires sign in ["", "-", "+"] && |d| > 0 && AllDigits(d)
    ensures IsTrimmedWord(sign + d) && ',' !in sign + d && IsIntLiteral(sign + d)
  {
    var s := sign + d;
    assert forall i :: |sign| <= i < |s| ==> s[i] == d[i - |sign|];
    assert ',' !in s by {
      assert forall i :: |sign| <= i < |s| ==> IsDigit(s[i]);
    }
    assert IsTrimmedWord(s);
    StripFixedPoint(s);
    if sign == "" {
      assert s == d;
    } else {
      assert s[1..] == d;
    }
  }

  // ---------------------------------------------------------------- costs

  function IndexOf(s: string, c: char): (k: nat)
    ensures k <= |s|
    ensures k < |s| ==> s[k] == c
    ensures forall i :: 0 <= i < k ==> s[i] != c
  {
    if s == [] then 0 else if s[0] == c then 0 else 1 + IndexOf(s[1..], c)
  }

  /** The number `whole.frac` denotes. */
  function NumeralValue(whole: string, frac: string): real
    requires AllDigits(whole) && AllDigits(frac)
  {
    DigitsValue(whole) as real + DigitsValue(frac) as real / Pow10(|frac|) as real
  }

  /** An unsigned decimal numeral: digits with at most one point and at least one digit. */
  function ParseUnsigned(u: string): Option<real> {
    var k := IndexOf(u, '.');
    var whole := u[..k];
    var frac := if k < |u| then u[k + 1..] else [];
    if AllDigits(whole) && AllDigits(frac) && (|whole| > 0 || |frac| > 0) then
      Some(NumeralValue(whole, frac))
    else None
  }

  /** The part of Python's `float(s)` grammar the model keeps, applied after stripping:
      an optional sign followed by an unsigned decimal numeral. */
  function ParseDecimal(t: string): Option<real> {
    if |t| > 0 && (t[0] == '-' || t[0] == '+') then
      match ParseUnsigned(t[1..])
      case None => None
      case Some(v) => Some(if t[0] == '-' then -v else v)
    else ParseUnsigned(t)
  }

  /** validate_expense_cost: the parsed number, if there is one and it is greater than 0. */
  function ValidateExpenseCost(cost: string): (r: Result<real>)
    ensures r.Ok? ==> r.value > 0.0 && ParseDecimal(Strip(cost)) == Some(r.value)
    ensures r.Err? ==> r.error.IllegalExpenseCost?
    ensures r.Ok? <==> ParseDecimal(Strip(cost)).Some? && ParseDecimal(Strip(cost)).value > 0.0
    ensures ParseDecimal(Strip(cost)).None? <==> r == Err(IllegalExpenseCost(NotANumber))
    ensures r == Err(IllegalExpenseCost(NotPositive)) <==>
              ParseDecimal(Strip(cost)).Some? && ParseDecimal(Strip(cost)).value <= 0.0
  {
    match ParseDecimal(Strip(cost))
    case None => Err(IllegalExpenseCost(NotANumber))
    case Some(v) => if v > 0.0 then Ok(v) else Err(IllegalExpenseCost(NotPositive))
  }

  /** `w.f` with digit strings on both sides denotes `w + f / 10^|f|`. */
  lemma ParsePointed(w: string, f: string)
    requires |w| > 0 && AllDigits(w) && AllDigits(f)
    ensures ParseUnsigned(w + "." + f) == Some(NumeralValue(w, f))
  {
    var s := w + "." + f;
    var k := IndexOf(s, '.');
    assert s[|w|] == '.';
    assert k == |w|;
    assert s[..k] == w;
    assert s[k + 1..] == f;
  }

  /** A numeral starting with a digit reads the same through the signed grammar, and its
      negation reads as the negated number. */
  lemma SignedNumeral(s: string, neg: string, v: real)
    requires |s| > 0 && IsDigit(s[0]) && ParseUnsigned(s) == Some(v)
    requires neg == "-" + s
    ensures ParseDecimal(s) == Some(v)
    ensures ParseDecimal(neg) == Some(-v)
  {
    assert neg[1..] == s;
  }

  /** `whole.frac`, the fraction zero-padded to `width` digits as `%.2f` writes cents. */
  function PointedText(whole: nat, frac: nat, width: nat): string {
    ShowNat(whole) + "." + Fixed(frac, width)
  }

  function PointedValue(whole: nat, frac: nat, width: nat): real {
    whole as real + frac as real / Pow10(width) as real
  }

  /** `w.f` and `-w.f` carry no surrounding whitespace. */
  lemma PointedStripped(w: string, f: string)
    requires |w| > 0 && AllDigits(w) && AllDigits(f)
    ensures Strip(w + "." + f) == w + "." + f
    ensures Strip("-" + (w + "." + f)) == "-" + (w + "." + f)
  {
    var s := w + "." + f;
    var neg := "-" + s;
    assert s[0] == w[0];
    assert s[|s| - 1] == '.' || s[|s| - 1] == f[|f| - 1];
    assert !IsSpace(s[|s| - 1]);
    StripFixedPoint(s);
    assert neg[|s|] == s[|s| - 1];
    assert neg[0] == '-';
    StripFixedPoint(neg);
  }

  /** `w.f` and `-w.f` parse as the number they denote and its negation. */
  lemma PointedParses(w: string, f: string)
    requires |w| > 0 && AllDigits(w) && AllDigits(f)
    ensures ParseDecimal(w + "." + f) == Some(NumeralValue(w, f))
    ensures ParseDecimal("-" + (w + "." + f)) == Some(-NumeralValue(w, f))
  {
    var s := w + "." + f;
    ParsePointed(w, f);
    assert s[0] == w[0];
    SignedNumeral(s, "-" + s, NumeralValue(w, f));
  }

  /** A cost written `whole.frac` is read back as the number it denotes; it is accepted
      exactly when positive, and its negation is always refused as not positive. */
  lemma CostRoundTrip(whole: nat, frac: nat, width: nat)
    requires frac < Pow10(width)
    ensures ValidateExpenseCost(PointedText(whole, frac, width)) ==
              if PointedValue(whole, frac, width) > 0.0 then Ok(PointedValue(whole, frac, width))
              else Err(IllegalExpenseCost(NotPositive))
    ensures ValidateExpenseCost("-" + PointedText(whole, frac, width)) ==
              Err(IllegalExpenseCost(NotPositive))
  {
    var w := ShowNat(whole);
    var f := Fixed(frac, width);
    assert NumeralValue(w, f) == PointedValue(whole, frac, width) by {
      ShowNatValue(whole);
      FixedValue(frac, width);
    }
    PointedParses(w, f);
    PointedStripped(w, f);
    CostOfNumber(PointedText(whole, frac, width), PointedValue(whole, frac, width));
    NonNegativeRatio(frac as real, Pow10(width) as real);
    assert -PointedValue(whole, frac, width) <= 0.0;
  }

  lemma CostOfNumber(cost: string, v: real)
    requires ParseDecimal(Strip(cost)) == Some(v)
    ensures ValidateExpenseCost(cost) ==
              if v > 0.0 then Ok(v) else Err(IllegalExpenseCost(NotPositive))
  {
  }

  lemma NonNegativeRatio(a: real, b: real)
    requires a >= 0.0 && b > 0.0
    ensures a / b >= 0.0
  {
  }

  /** Stripping keeps every non-whitespace character. */
  lemma StripKeeps(s: string, i: nat)
    requires i < |s| && !IsSpace(s[i])
    ensures s[i] in Strip(s)
  {
    var t := TrimStart(s);
    var r := TrimEnd(t);
    var a := |s| - |t|;
    assert t[i - a] == s[i];
    assert r[i - a] == s[i];
  }

  lemma UnsignedRejects(u: string, c: char)
    requires c in u && !IsDigit(c) && c != '.'
    ensures ParseUnsigned(u) == None
  {
    var k := IndexOf(u, '.');
    if k < |u| {
      assert u == u[..k] + [u[k]] + u[k + 1..];
    } else {
      assert u[..k] == u;
    }
  }

  /** A cost string holding a character that no numeral contains is not a number. */
  lemma ForeignCharacterIsNotANumber(cost: string, i: nat)
    requires i < |cost| && !IsSpace(cost[i]) && !IsDigit(cost[i])
    requires cost[i] !in ".+-"
    ensures ValidateExpenseCost(cost) == Err(IllegalExpenseCost(NotANumber))
  {
    var t := Strip(cost);
    StripKeeps(cost, i);
    if |t| > 0 && (t[0] == '-' || t[0] == '+') {
      assert t == [t[0]] + t[1..];
      UnsignedRejects(t[1..], cost[i]);
    } else {
      UnsignedRejects(t, cost[i]);
    }
  }

  // ---------------------------------------------------------------- dates

  datatype Date = Date(year: int, month: int, day: int) {
    /** Strictly later than `other` on the calendar. */
    predicate After(other: Date) {
      year > other.year
      || (year == other.year && month > other.month)
      || (year == other.year && month == other.month && day > other.day)
    }
  }

  /** The Gregorian leap-year rule. */
  predicate IsLeapYear(y: int) {
    y % 4 == 0 && (y % 100 != 0 || y % 400 == 0)
  }

  function DaysInMonth(y: int, m: int): int
    requires 1 <= m <= 12
  {
    if m == 2 then (if IsLeapYear(y) then 29 else 28)
    else if m == 4 || m == 6 || m == 9 || m == 11 then 30
    else 31
  }

  /** A date Python's `datetime.date` can hold. */
  predicate IsValidDate(d: Date) {
    1 <= d.year <= 9999 && 1 <= d.month <= 12 && 1 <= d.day <= DaysInMonth(d.year, d.month)
  }

  /** The date written YYYYMMDD. */
  function FormatDate(d: Date): (s: string)
    requires IsValidDate(d)
    ensures |s| == 8 && AllDigits(s)
  {
    Fixed(d.year, 4) + Fixed(d.month, 2) + Fixed(d.day, 2)
  }

  /** `strptime(s, '%Y%m%d')` restricted to the eight-digit form. */
  function ParseDate(s: string): Option<Date> {
    if |s| == 8 && AllDigits(s) then
      var d := Date(DigitsValue(s[..4]), DigitsValue(s[4..6]), DigitsValue(s[6..]));
      if IsValidDate(d) then Some(d) else None
    else None
  }

  /** Formatting a date and parsing it back gives the date. */
  lemma ParseFormatDate(d: Date)
    requires IsValidDate(d)
    ensures ParseDate(FormatDate(d)) == Some(d)
  {
    var s := FormatDate(d);
    assert s[..4] == Fixed(d.year, 4);
    assert s[4..6] == Fixed(d.month, 2);
    assert s[6..] == Fixed(d.day, 2);
    FixedValue(d.year, 4);
    FixedValue(d.month, 2);
    FixedValue(d.day, 2);
  }

  /** Whatever parses as a date is the canonical spelling of that date. */
  lemma FormatParseDate(s: string)
    requires ParseDate(s).Some?
    ensures FormatDate(ParseDate(s).value) == s
  {
    var y, m, d := s[..4], s[4..6], s[6..];
    DigitSlices(s);
    FixedOfValue(y);
    FixedOfValue(m);
    FixedOfValue(d);
    var date := ParseDate(s).value;
    assert date == Date(DigitsValue(y), DigitsValue(m), DigitsValue(d));
    assert FormatDate(date) == y + m + d;
    assert s == y + m + d;
  }

  lemma DigitSlices(s: string)
    requires |s| == 8 && AllDigits(s)
    ensures AllDigits(s[..4]) && AllDigits(s[4..6]) && AllDigits(s[6..])
  {
  }

  /** validate_expense_date: accepts the spelling of a real calendar date that is not after
      `today`, and returns the string itself. */
  function ValidateExpenseDate(date: string, today: Date): (r: Result<string>)
    ensures r.Ok? <==> exists d :: IsValidDate(d) && FormatDate(d) == date && !d.After(today)
    ensures r.Ok? ==> r.value == date
    ensures (forall d :: IsValidDate(d) ==> FormatDate(d) != date) <==>
              r == Err(IllegalExpenseDate(NotADate))
    ensures (exists d :: IsValidDate(d) && FormatDate(d) == date && d.After(today)) <==>
              r == Err(IllegalExpenseDate(InFuture))
  {
    DateSpellings(date);
    match ParseDate(date)
    case None => Err(IllegalExpenseDate(NotADate))
    case Some(d) => if d.After(today) then Err(IllegalExpenseDate(InFuture)) else Ok(date)
  }

  /** The dates spelled `s` are exactly the one `ParseDate` finds. */
  lemma DateSpellings(s: string)
    ensures forall d :: IsValidDate(d) && FormatDate(d) == s ==> ParseDate(s) == Some(d)
    ensures ParseDate(s).Some? ==> IsValidDate(ParseDate(s).value) && FormatDate(ParseDate(s).value) == s
  {
    forall d | IsValidDate(d) && FormatDate(d) == s
      ensures ParseDate(s) == Some(d)
    {
      ParseFormatDate(d);
    }
    if ParseDate(s).Some? {
      FormatParseDate(s);
    }
  }
}
