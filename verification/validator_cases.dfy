/** The validator cases of test.py (TestValidateUsername, TestValidateExpenseCost,
    TestValidateExpenseDate, TestValidateExpenseTitle), stated about the model. */
module ValidatorCases {
  import opened Errors
  import opened Text
  import opened Validation

  /** 'a a' is a user name; inner spaces are allowed. */
  lemma UsernameWithSpace()
    ensures ValidateUsername("a a") == Ok("a a")
  {
    var s := "a a";
    assert IsTrimmedWord(s) && ',' !in s && !IsIntLiteral(s) by {
      assert s[0] == 'a' && s[2] == 'a' && s[1] == ' ';
      StripFixedPoint(s);
      assert Strip(s) == s;
      assert !IsDigit(s[0]);
    }
  }

  lemma UsernameSurroundedBySpace()
    ensures ValidateUsername(" a") == Err(IllegalUsername(SurroundingWhitespace))
    ensures ValidateUsername("a ") == Err(IllegalUsername(SurroundingWhitespace))
  {
    assert " a"[0] == ' ' && "a "[1] == ' ';
  }

  lemma UsernameEmpty()
    ensures ValidateUsername("") == Err(IllegalUsername(Blank))
  {
  }

  lemma UsernameWithComma()
    ensures ValidateUsername("aa,bb") == Err(IllegalUsername(ContainsComma))
  {
    var s := "aa,bb";
    assert IsTrimmedWord(s) && ',' in s by {
      assert s[0] == 'a' && s[4] == 'b' && s[2] == ',';
    }
  }

  /** '0' reads as an integer and is refused as a user name. */
  lemma NumberUsername()
    ensures ValidateUsername("0") == Err(IllegalUsername(IsNumber))
  {
    NumeralIsNotUsername(0, "");
    assert "" + ShowNat(0) == "0";
  }

  /** So does '-5'. */
  lemma NegativeUsername()
    ensures ValidateUsername("-5") == Err(IllegalUsername(IsNumber))
  {
    NumeralIsNotUsername(5, "-");
    assert "-" + ShowNat(5) == "-5";
  }

  lemma TitleWithSpace()
    ensures ValidateExpenseTitle("Aa Bb") == Ok("Aa Bb")
  {
    var s := "Aa Bb";
    assert IsTrimmedWord(s) by {
      assert s[0] == 'A' && s[4] == 'b';
    }
  }

  lemma TitleSurroundedBySpace()
    ensures ValidateExpenseTitle(" a a ") == Err(IllegalExpenseTitle(SurroundingWhitespace))
  {
    assert " a a "[0] == ' ';
  }

  lemma OneDigit(s: string)
    requires |s| == 1 && AllDigits(s)
    ensures DigitsValue(s) == DigitValue(s[0])
  {
    assert s[..0] == [];
  }

  lemma TwoDigits(s: string)
    requires |s| == 2 && AllDigits(s)
    ensures DigitsValue(s) == 10 * DigitValue(s[0]) + DigitValue(s[1])
  {
    OneDigit(s[..1]);
  }

  lemma FourDigits(s: string)
    requires |s| == 4 && AllDigits(s)
    ensures DigitsValue(s) == 1000 * DigitValue(s[0]) + 100 * DigitValue(s[1]) + 10 * DigitValue(s[2]) + DigitValue(s[3])
  {
    var three := s[..3];
    assert three[..2] == s[..2];
    TwoDigits(s[..2]);
    assert DigitsValue(three) == 10 * DigitsValue(s[..2]) + DigitValue(s[2]);
  }

  /** '10.22' is accepted as 10.22. */
  lemma CostWithCents()
    ensures ValidateExpenseCost("10.22") == Ok(10.22)
  {
    var w, f := "10", "22";
    assert w + "." + f == "10.22";
    assert NumeralValue(w, f) == 10.22 by {
      TwoDigits(w);
      TwoDigits(f);
    }
    PointedParses(w, f);
    PointedStripped(w, f);
    CostOfNumber(w + "." + f, 10.22);
  }

  /** '-2.0' is refused as not positive. */
  lemma CostNegative()
    ensures ValidateExpenseCost("-2.0") == Err(IllegalExpenseCost(NotPositive))
  {
    var w, f := "2", "0";
    assert "-" + (w + "." + f) == "-2.0";
    assert NumeralValue(w, f) == 2.0 by {
      OneDigit(w);
      OneDigit(f);
    }
    PointedParses(w, f);
    PointedStripped(w, f);
    CostOfNumber("-" + (w + "." + f), -2.0);
  }

  /** '0.0' is refused as not positive. */
  lemma CostZero()
    ensures ValidateExpenseCost("0.0") == Err(IllegalExpenseCost(NotPositive))
  {
    var w, f := "0", "0";
    assert w + "." + f == "0.0";
    assert NumeralValue(w, f) == 0.0 by {
      OneDigit(w);
      OneDigit(f);
    }
    PointedParses(w, f);
    PointedStripped(w, f);
    CostOfNumber(w + "." + f, 0.0);
  }

  /** '2.0b', 'a-10' and 'sin(x)' are not numbers. */
  lemma CostNotNumbers()
    ensures ValidateExpenseCost("2.0b") == Err(IllegalExpenseCost(NotANumber))
    ensures ValidateExpenseCost("a-10") == Err(IllegalExpenseCost(NotANumber))
    ensures ValidateExpenseCost("sin(x)") == Err(IllegalExpenseCost(NotANumber))
  {
    ForeignCharacterIsNotANumber("2.0b", 3);
    ForeignCharacterIsNotANumber("a-10", 0);
    ForeignCharacterIsNotANumber("sin(x)", 0);
  }

  /** The day the date tests take as today. */
  const Today: Date := Date(2013, 11, 14)

  /** An eight-digit string read as year, month and day. */
  lemma DateOf(s: string, y: nat, m: nat, d: nat)
    requires |s| == 8 && AllDigits(s)
    requires y == 1000 * DigitValue(s[0]) + 100 * DigitValue(s[1]) + 10 * DigitValue(s[2]) + DigitValue(s[3])
    requires m == 10 * DigitValue(s[4]) + DigitValue(s[5])
    requires d == 10 * DigitValue(s[6]) + DigitValue(s[7])
    ensures ParseDate(s) == if IsValidDate(Date(y, m, d)) then Some(Date(y, m, d)) else None
  {
    FourDigits(s[..4]);
    TwoDigits(s[4..6]);
    TwoDigits(s[6..]);
  }

  /** 29 February 2012 is a date, in a leap year. */
  lemma LeapDay()
    ensures ValidateExpenseDate("20120229", Today) == Ok("20120229")
  {
    DateOf("20120229", 2012, 2, 29);
  }

  /** 29 February 2013 is not a date. */
  lemma NoLeapDay()
    ensures ValidateExpenseDate("20130229", Today) == Err(IllegalExpenseDate(NotADate))
  {
    DateOf("20130229", 2013, 2, 29);
  }

  /** 31 April is not a date. */
  lemma ThirtyFirstOfApril()
    ensures ValidateExpenseDate("20130431", Today) == Err(IllegalExpenseDate(NotADate))
  {
    DateOf("20130431", 2013, 4, 31);
  }

  /** 1 January 2113 lies after the day the tests take as today. */
  lemma FutureDate()
    ensures ValidateExpenseDate("21130101", Today) == Err(IllegalExpenseDate(InFuture))
  {
    DateOf("21130101", 2113, 1, 1);
  }

  /** '0101' is too short to be a date. */
  lemma ShortDate()
    ensures ValidateExpenseDate("0101", Today) == Err(IllegalExpenseDate(NotADate))
  {
  }
}
