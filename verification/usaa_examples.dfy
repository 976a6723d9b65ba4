/** The balance extraction on the forms the accounts page prints: a home
    value row, an ordinary row, a balance shown as `$whole.fraction` and the
    two-line form of a negative balance. Each literal is evaluated in a lemma
    of its own. */
module UsaaExamples {
  import opened Results
  import opened PyText
  import opened PyDecimal
  import opened Usaa

  /** A text without surrounding whitespace strips to itself. */
  lemma StripsToItself(s: string)
    requires s != [] && !IsSpace(s[0]) && !IsSpace(s[|s| - 1])
    ensures Strip(s) == s
  {
    StripExact([], s, []);
    assert [] + s + [] == s;
  }

  lemma SentinelStripped()
    ensures Strip(HomeValueMonitoring) == HomeValueMonitoring
  {
    StripsToItself(HomeValueMonitoring);
  }

  lemma RoslynStripped()
    ensures Strip("1236 ROSLYN ST") == "1236 ROSLYN ST"
  {
    StripsToItself("1236 ROSLYN ST");
  }

  /** The home value example: the row is named after its label. */
  lemma HomeValueExample()
    ensures ResolveName(HomeValueMonitoring, "1236 ROSLYN ST") == "1236 ROSLYN ST"
  {
    SentinelStripped();
    RoslynStripped();
    HomeNamedByLabel(HomeValueMonitoring, "1236 ROSLYN ST");
  }

  lemma CheckingStripped()
    ensures Strip(" Checking\n") == "Checking"
  {
    StripExact(" ", "Checking", "\n");
    CheckingPadded();
  }

  lemma CheckingPadded()
    ensures " " + "Checking" + "\n" == " Checking\n"
  {
    var t := " " + "Checking" + "\n";
    assert |t| == |" Checking\n"|;
    forall i | 0 <= i < |t|
      ensures t[i] == " Checking\n"[i]
    {
      if 1 <= i < 9 {
        assert t[i] == "Checking"[i - 1];
      }
    }
  }

  /** An ordinary row is named after its product name, trimmed. */
  lemma CheckingExample()
    ensures ResolveName(" Checking\n", "") == "Checking"
  {
    CheckingStripped();
    OtherNamedByName(" Checking\n", "");
  }

  /** A balance printed as `$whole.fraction` is the number its digits
      spell: the dollar sign is dropped with the other non-digits. */
  lemma DollarBalance(text: string, whole: string, fraction: string)
    requires AllDigits(whole) && AllDigits(fraction) && (whole != [] || fraction != [])
    requires text == "$" + whole + "." + fraction
    ensures ParseBalance(text).Ok?
    ensures Value(ParseBalance(text).value)
      == DigitsValue(whole) as real + DigitsValue(fraction) as real / Pow10(|fraction|) as real
  {
    DollarText(text, whole, fraction);
    BalanceOfDigits(text, whole, fraction);
  }

  lemma DollarText(text: string, whole: string, fraction: string)
    requires AllDigits(whole) && AllDigits(fraction)
    requires text == "$" + whole + "." + fraction
    ensures !IsNegativeText(text)
    ensures KeepNumeric(text) == whole + "." + fraction
  {
    var amount := whole + "." + fraction;
    assert text == ['$'] + amount;
    LeadingSymbolNotNegative('$', amount);
    KeepNumericConcat(['$'], amount);
    KeepNumericChar('$');
    PointedNumeric(whole, fraction);
    KeepNumericOfNumeric(amount);
  }

  /** A balance printed with a thousands separator, as in `$1,234.56`: the
      comma is dropped with the other non-digits, so the digits on both
      sides of it read as one whole part. */
  lemma ThousandsBalance(text: string, thousands: string, hundreds: string, fraction: string)
    requires AllDigits(thousands) && AllDigits(hundreds) && AllDigits(fraction) && |hundreds| == 3
    requires text == "$" + thousands + "," + hundreds + "." + fraction
    ensures ParseBalance(text).Ok?
    ensures AllDigits(thousands + hundreds)
    ensures DigitsValue(thousands + hundreds) == DigitsValue(thousands) * 1000 + DigitsValue(hundreds)
    ensures Value(ParseBalance(text).value)
      == DigitsValue(thousands + hundreds) as real + DigitsValue(fraction) as real / Pow10(|fraction|) as real
  {
    ThousandsText(text, thousands, hundreds, fraction);
    ThousandsParsed(text, thousands, hundreds, fraction);
  }

  lemma ThousandsParsed(text: string, thousands: string, hundreds: string, fraction: string)
    requires AllDigits(thousands) && AllDigits(hundreds) && AllDigits(fraction) && |hundreds| == 3
    requires !IsNegativeText(text) && KeepNumeric(text) == thousands + hundreds + "." + fraction
    ensures ParseBalance(text).Ok?
    ensures AllDigits(thousands + hundreds)
    ensures DigitsValue(thousands + hundreds) == DigitsValue(thousands) * 1000 + DigitsValue(hundreds)
    ensures Value(ParseBalance(text).value)
      == DigitsValue(thousands + hundreds) as real + DigitsValue(fraction) as real / Pow10(|fraction|) as real
  {
    ThousandsValue(thousands, hundreds);
    BalanceOfDigits(text, thousands + hundreds, fraction);
  }

  lemma ThousandsValue(thousands: string, hundreds: string)
    requires AllDigits(thousands) && AllDigits(hundreds) && |hundreds| == 3
    ensures AllDigits(thousands + hundreds) && thousands + hundreds != []
    ensures DigitsValue(thousands + hundreds) == DigitsValue(thousands) * 1000 + DigitsValue(hundreds)
  {
    DigitsValueConcat(thousands, hundreds);
    assert Pow10(3) == 1000;
  }

  lemma ThousandsText(text: string, thousands: string, hundreds: string, fraction: string)
    requires AllDigits(thousands) && AllDigits(hundreds) && AllDigits(fraction)
    requires text == "$" + thousands + "," + hundreds + "." + fraction
    ensures !IsNegativeText(text)
    ensures KeepNumeric(text) == thousands + hundreds + "." + fraction
  {
    var head := "$" + thousands;
    assert text[0] == head[0] == '$';
    assert text == [text[0]] + text[1..];
    LeadingSymbolNotNegative('$', text[1..]);
    assert KeepNumeric(head) == thousands by {
      KeepNumericConcat("$", thousands);
      KeepNumericChar('$');
      KeepNumericOfNumeric(thousands);
      assert [] + thousands == thousands;
    }
    assert KeepNumeric(head + ",") == thousands by {
      KeepNumericConcat(head, ",");
      KeepNumericChar(',');
      assert thousands + [] == thousands;
    }
    assert KeepNumeric(head + "," + hundreds) == thousands + hundreds by {
      KeepNumericConcat(head + ",", hundreds);
      KeepNumericOfNumeric(hundreds);
    }
    assert KeepNumeric(head + "," + hundreds + ".") == thousands + hundreds + "." by {
      KeepNumericConcat(head + "," + hundreds, ".");
      KeepNumericChar('.');
    }
    KeepNumericConcat(head + "," + hundreds + ".", fraction);
    KeepNumericOfNumeric(fraction);
  }

  /** The page's two-line form of a negative balance: a first line starting
      with "Negative $" for screen readers, then the amount shown as
      `-$whole.fraction`. The balance is minus the number the digits spell. */
  lemma NegativeDollarBalance(text: string, first: string, whole: string, fraction: string)
    requires '\n' !in first
    requires AllDigits(whole) && AllDigits(fraction) && (whole != [] || fraction != [])
    requires |whole| + |fraction| <= Precision
    requires text == NegativeMarker + first + "\n-$" + whole + "." + fraction
    ensures ParseBalance(text).Ok?
    ensures Value(ParseBalance(text).value)
      == -(DigitsValue(whole) as real + DigitsValue(fraction) as real / Pow10(|fraction|) as real)
  {
    var line := NegativeText(text, first, whole, fraction);
    ShownAmount(line, whole, fraction);
    NegativeAmount(line, whole, fraction);
    NegativeBalanceValue(text);
  }

  /** The second line of the two-line form, and the marker on the first. */
  lemma NegativeText(text: string, first: string, whole: string, fraction: string) returns (line: string)
    requires '\n' !in first
    requires AllDigits(whole) && AllDigits(fraction) && (whole != [] || fraction != [])
    requires text == NegativeMarker + first + "\n-$" + whole + "." + fraction
    ensures line == "-$" + (whole + "." + fraction)
    ensures IsNegativeText(text) && '\n' in text
    ensures Split(text, '\n')[1] == line
  {
    var amount := whole + "." + fraction;
    line := "-$" + amount;
    var head := NegativeMarker + first;
    PointedNumeric(whole, fraction);
    TwoLineShape(text, first, whole, fraction);
    MarkedHead(head, first);
    NoBreakInAmount(line, amount);
    MarkedText(head, line, amount);
    SecondLine(head, line);
  }

  lemma TwoLineShape(text: string, first: string, whole: string, fraction: string)
    requires text == NegativeMarker + first + "\n-$" + whole + "." + fraction
    ensures text == (NegativeMarker + first) + ['\n'] + ("-$" + (whole + "." + fraction))
  {
  }

  lemma MarkedHead(head: string, first: string)
    requires '\n' !in first && head == NegativeMarker + first
    ensures StartsWith(head, NegativeMarker) && '\n' !in head
  {
    assert head[..|NegativeMarker|] == NegativeMarker;
    assert forall j :: 0 <= j < |first| ==> head[j + |NegativeMarker|] == first[j];
    assert '\n' !in NegativeMarker;
  }

  lemma NoBreakInAmount(line: string, amount: string)
    requires AllNumeric(amount) && line == "-$" + amount
    ensures '\n' !in line
  {
    assert forall j :: 0 <= j < |amount| ==> line[j + 2] == amount[j];
    assert line[0] == '-' && line[1] == '$';
  }

  /** A text that starts with the marker and ends in a digit or point is
      marked negative. */
  lemma MarkedText(head: string, line: string, amount: string)
    requires StartsWith(head, NegativeMarker)
    requires |amount| > 0 && AllNumeric(amount) && line == "-$" + amount
    ensures IsNegativeText(head + ['\n'] + line)
  {
    var text := head + ['\n'] + line;
    assert text[0] == head[0] == 'N';
    assert StripStart(text) == text;
    assert text[|text| - 1] == amount[|amount| - 1];
    assert StripEnd(text) == text;
    assert text[..|NegativeMarker|] == head[..|NegativeMarker|];
  }

  lemma SecondLine(head: string, line: string)
    requires '\n' !in head && '\n' !in line
    ensures '\n' in head + ['\n'] + line
    ensures Split(head + ['\n'] + line, '\n')[1] == line
  {
    var text := head + ['\n'] + line;
    IndexOfAfter(head, '\n', line);
    assert text[..|head|] == head;
    assert text[|head| + 1..] == line;
  }

  /** The shown amount filters to its digits and point. */
  lemma ShownAmount(line: string, whole: string, fraction: string)
    requires AllDigits(whole) && AllDigits(fraction)
    requires line == "-$" + (whole + "." + fraction)
    ensures KeepNumeric(line) == whole + "." + fraction
  {
    var amount := whole + "." + fraction;
    KeepNumericConcat("-$", amount);
    assert KeepNumeric("-$") == [];
    PointedNumeric(whole, fraction);
    KeepNumericOfNumeric(amount);
  }

  /** The shown amount parses to the number its digits spell, within the
      precision of the context. */
  lemma NegativeAmount(line: string, whole: string, fraction: string)
    requires AllDigits(whole) && AllDigits(fraction) && (whole != [] || fraction != [])
    requires |whole| + |fraction| <= Precision
    requires KeepNumeric(line) == whole + "." + fraction
    ensures DecimalOfDigits(line).Ok?
    ensures NumDigits(DecimalOfDigits(line).value.coefficient) <= Precision
    ensures Value(DecimalOfDigits(line).value)
      == DigitsValue(whole) as real + DigitsValue(fraction) as real / Pow10(|fraction|) as real
  {
    var amount := whole + "." + fraction;
    var d := Decimal(false, DigitsValue(whole + fraction), -|fraction|);
    assert DecimalOfDigits(line) == Ok(d) by {
      ParseParts(whole, fraction);
    }
    assert NumDigits(d.coefficient) <= Precision by {
      DigitsValueBelow(whole + fraction);
      NumDigitsBelow(DigitsValue(whole + fraction), |whole + fraction|);
    }
    assert Value(d) == DigitsValue(whole) as real + DigitsValue(fraction) as real / Pow10(|fraction|) as real by {
      ParseParts(whole, fraction);
      LiteralValue(whole, fraction);
    }
  }
}
