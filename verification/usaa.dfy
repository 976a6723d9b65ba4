/** The balance extraction of `usaa_get_data` (websites/usaa/__init__.py).

    The three `find_elements` calls become three sequences of element texts;
    what remains is text processing: pair the texts row by row, resolve each
    row's account name, parse its balance as a `Decimal`, and fold the rows
    into a dictionary. A row whose balance cannot be parsed raises, and so
    does the whole call. */
module Usaa {
  import opened Results
  import opened PyText
  import opened PyDecimal
  import Retry

  /** The product name under which a home's market value is listed; the
      home's own name is then in the product label. */
  const HomeValueMonitoring: string := "Home Value Monitoring"

  /** How the page spells out a negative balance for screen readers, on a
      line of its own before the balance. */
  const NegativeMarker: string := "Negative $"

  /** The texts of the i-th `product-name`, `product-label` and
      `product-balance` elements. */
  datatype Row = Row(nameText: string, labelText: string, balanceText: string)

  /** The exceptions a row can raise: `IndexError` from `split('\n')[1]`
      and `decimal.InvalidOperation` from `Decimal(...)`. */
  datatype BalanceError = IndexError | InvalidOperation

  // ---------------------------------------------------------------------
  // Names
  // ---------------------------------------------------------------------

  /** The account name of a row: the label for a home value, the product
      name otherwise, stripped either way. */
  function ResolveName(nameText: string, labelText: string): (name: string)
    ensures name == Strip(labelText) || name == Strip(nameText)
    ensures name == [] || (!IsSpace(name[0]) && !IsSpace(name[|name| - 1]))
  {
    var name := if Strip(nameText) == HomeValueMonitoring then labelText else nameText;
    Strip(name)
  }

  function RowName(row: Row): string {
    ResolveName(row.nameText, row.labelText)
  }

  /** A row whose stripped product name is the sentinel is named after its
      label, stripped. */
  lemma HomeNamedByLabel(nameText: string, labelText: string)
    requires Strip(nameText) == HomeValueMonitoring
    ensures ResolveName(nameText, labelText) == Strip(labelText)
  {
  }

  /** Any other row is named after its product name, stripped. */
  lemma OtherNamedByName(nameText: string, labelText: string)
    requires Strip(nameText) != HomeValueMonitoring
    ensures ResolveName(nameText, labelText) == Strip(nameText)
  {
  }

  /** Whitespace around either text never changes the name. */
  lemma ResolveNameIgnoresPadding(pre: string, post: string, nameText: string, labelText: string, pre': string, post': string)
    requires AllSpace(pre) && AllSpace(post) && AllSpace(pre') && AllSpace(post')
    ensures ResolveName(pre + nameText + post, pre' + labelText + post') == ResolveName(nameText, labelText)
  {
    StripIgnoresPadding(pre, nameText, post);
    StripIgnoresPadding(pre', labelText, post');
  }

  // ---------------------------------------------------------------------
  // Balances
  // ---------------------------------------------------------------------

  /** `re.sub(r'[^\d.]', '', s)`: the digits and points of `s`, in order. */
  function KeepNumeric(s: string): (r: string)
    ensures AllNumeric(r)
    ensures |r| <= |s|
  {
    if s == [] then []
    else
      var rest := KeepNumeric(s[1..]);
      if IsNumericChar(s[0]) then [s[0]] + rest else rest
  }

  /** Every digit and point of `s` survives the filter, as often as it occurs. */
  lemma {:induction false} KeepNumericCounts(s: string, c: char)
    requires IsNumericChar(c)
    ensures Count(KeepNumeric(s), c) == Count(s, c)
  {
    if s != [] {
      KeepNumericCounts(s[1..], c);
      assert s == [s[0]] + s[1..];
      var rest := KeepNumeric(s[1..]);
      if IsNumericChar(s[0]) {
        assert multiset([s[0]] + rest) == multiset{s[0]} + multiset(rest);
      }
    }
  }

  /** The filter works character by character: filtering a concatenation
      concatenates the filtered parts. */
  lemma {:induction false} KeepNumericConcat(a: string, b: string)
    ensures KeepNumeric(a + b) == KeepNumeric(a) + KeepNumeric(b)
  {
    if a == [] {
      assert a + b == b;
    } else {
      assert (a + b)[0] == a[0];
      assert (a + b)[1..] == a[1..] + b;
      KeepNumericConcat(a[1..], b);
    }
  }

  /** A single character is kept exactly when it is a digit or a point. */
  lemma KeepNumericChar(c: char)
    ensures KeepNumeric([c]) == if IsNumericChar(c) then [c] else []
  {
    assert [c][1..] == [];
  }

  /** Digits and points pass the filter unchanged. */
  lemma {:induction false} KeepNumericOfNumeric(s: string)
    requires AllNumeric(s)
    ensures KeepNumeric(s) == s
  {
    if s != [] {
      KeepNumericOfNumeric(s[1..]);
    }
  }

  /** Filtering twice is filtering once. */
  lemma KeepNumericIdempotent(s: string)
    ensures KeepNumeric(KeepNumeric(s)) == KeepNumeric(s)
  {
    KeepNumericOfNumeric(KeepNumeric(s));
  }

  /** Whether the balance text announces a negative balance. */
  predicate IsNegativeText(text: string) {
    StartsWith(Strip(text), NegativeMarker)
  }

  /** The marker test looks through surrounding whitespace. */
  lemma NegativeMarkIgnoresPadding(pre: string, text: string, post: string)
    requires AllSpace(pre) && AllSpace(post)
    ensures IsNegativeText(pre + text + post) <==> IsNegativeText(text)
  {
    StripIgnoresPadding(pre, text, post);
  }

  /** `Decimal(re.sub(r'[^\d.]', '', s))`. */
  function DecimalOfDigits(s: string): (r: Result<Decimal, BalanceError>)
    ensures r.Ok? <==> IsLiteral(KeepNumeric(s))
    ensures r.Err? ==> r.error == InvalidOperation
    ensures r.Ok? ==> !r.value.negative && r.value.exponent <= 0
  {
    match ParseLiteral(KeepNumeric(s))
    case None => Err(InvalidOperation)
    case Some(d) => Ok(d)
  }

  /** The balance of a row. When the stripped text starts with
      "Negative $", its second line (of the text as it is, split on '\n') is
      filtered, parsed and multiplied by -1; otherwise the whole text is
      filtered and parsed. */
  function ParseBalance(text: string): (r: Result<Decimal, BalanceError>)
    ensures !IsNegativeText(text) ==> (r.Ok? <==> IsLiteral(KeepNumeric(text)))
    ensures !IsNegativeText(text) && r.Ok? ==> !r.value.negative
    ensures !IsNegativeText(text) && r.Err? ==> r.error == InvalidOperation
    ensures IsNegativeText(text) ==> (r == Err(IndexError) <==> '\n' !in text)
    ensures IsNegativeText(text) ==> (r.Ok? <==> '\n' in text && IsLiteral(KeepNumeric(Split(text, '\n')[1])))
    ensures IsNegativeText(text) && r.Ok? ==> r.value.negative
  {
    if IsNegativeText(text) then
      var lines := Split(text, '\n');
      assert |lines| >= 2 <==> '\n' in text;
      if |lines| < 2 then Err(IndexError)
      else
        match DecimalOfDigits(lines[1])
        case Err(e) => Err(e)
        case Ok(d) => Ok(NegateInContext(d))
    else
      DecimalOfDigits(text)
  }

  /** A balance without the negative marker is at least zero, even where
      the text holds a minus sign; one with the marker is at most zero. */
  lemma BalanceSign(text: string)
    ensures ParseBalance(text).Ok? && !IsNegativeText(text) ==> Value(ParseBalance(text).value) >= 0.0
    ensures ParseBalance(text).Ok? && IsNegativeText(text) ==> Value(ParseBalance(text).value) <= 0.0
  {
    if ParseBalance(text).Ok? {
      ValueSign(ParseBalance(text).value);
    }
  }

  /** Where the page prints a minus sign outside the "Negative $" form, it
      is dropped with the other non-digits: the balance stays non-negative. */
  lemma MinusSignIgnored(t: string)
    requires !IsNegativeText(t)
    ensures !IsNegativeText("-" + t)
    ensures ParseBalance("-" + t) == ParseBalance(t)
  {
    MinusDropped(t);
    PlainBalancesAgree("-" + t, t);
  }

  lemma MinusDropped(t: string)
    ensures !IsNegativeText("-" + t)
    ensures KeepNumeric("-" + t) == KeepNumeric(t)
  {
    LeadingSymbolNotNegative('-', t);
    assert ['-'] + t == "-" + t;
    assert ("-" + t)[1..] == t;
  }

  /** Two unmarked texts that filter to the same characters have the same
      balance. */
  lemma PlainBalancesAgree(a: string, b: string)
    requires !IsNegativeText(a) && !IsNegativeText(b)
    requires KeepNumeric(a) == KeepNumeric(b)
    ensures ParseBalance(a) == ParseBalance(b)
  {
  }

  /** A text that starts with a visible character other than 'N' does not
      carry the negative marker. */
  lemma LeadingSymbolNotNegative(c: char, t: string)
    requires !IsSpace(c) && c != 'N'
    ensures !IsNegativeText([c] + t)
  {
    var s := [c] + t;
    assert StripStart(s) == s;
    var r := Strip(s);
    assert r == StripEnd(s);
    assert r == [] || r[0] == c;
    assert |r| >= |NegativeMarker| ==> r[..|NegativeMarker|][0] == r[0];
    assert NegativeMarker[0] == 'N';
  }

  /** An unmarked balance whose digits carry a point is the number they
      spell: the whole part plus the fraction digits over ten to their
      count. */
  lemma BalanceOfDigits(text: string, whole: string, fraction: string)
    requires !IsNegativeText(text)
    requires AllDigits(whole) && AllDigits(fraction) && (whole != [] || fraction != [])
    requires KeepNumeric(text) == whole + "." + fraction
    ensures ParseBalance(text).Ok?
    ensures Value(ParseBalance(text).value)
      == DigitsValue(whole) as real + DigitsValue(fraction) as real / Pow10(|fraction|) as real
  {
    LiteralValue(whole, fraction);
  }

  /** An unmarked balance whose digits carry no point is the whole number
      they spell. */
  lemma BalanceOfWholeDigits(text: string, digits: string)
    requires !IsNegativeText(text)
    requires AllDigits(digits) && digits != []
    requires KeepNumeric(text) == digits
    ensures ParseBalance(text).Ok?
    ensures Value(ParseBalance(text).value) == DigitsValue(digits) as real
  {
    var d := Decimal(false, DigitsValue(digits), 0);
    assert DecimalOfDigits(text) == Ok(d) by {
      ParseWhole(digits, d);
    }
    assert Scale(0) == 1.0;
  }

  /** A negative balance whose digits fit the context's precision is exactly
      the negated value of its second line. */
  lemma NegativeBalanceValue(text: string)
    requires IsNegativeText(text) && '\n' in text
    requires IsLiteral(KeepNumeric(Split(text, '\n')[1]))
    requires NumDigits(DecimalOfDigits(Split(text, '\n')[1]).value.coefficient) <= Precision
    ensures ParseBalance(text).Ok?
    ensures Value(ParseBalance(text).value) == -Value(DecimalOfDigits(Split(text, '\n')[1]).value)
  {
    NegateExact(DecimalOfDigits(Split(text, '\n')[1]).value);
  }

  // ---------------------------------------------------------------------
  // Rows and the dictionary
  // ---------------------------------------------------------------------

  /** One dictionary entry. */
  datatype Record = Record(name: string, balance: Decimal)

  /** The balance expression of the loop, `Decimal(...)` or
      `-1*Decimal(...)`: `ParseBalance` on the page, kept as a parameter so
      that the row bookkeeping below is stated once for any parser. */
  type Parser = string -> Result<Decimal, BalanceError>

  /** The body of the `for` loop for one row, up to `data[name] = balance`. */
  function ParseRow(row: Row, parse: Parser): Result<Record, BalanceError> {
    var balance := parse(row.balanceText);
    if balance.Ok? then Ok(Record(RowName(row), balance.value)) else Err(balance.error)
  }

  /** `zip(names, labels, balances)`: rows are paired by position and stop
      at the end of the shortest sequence. */
  function Zip3(names: seq<string>, labels: seq<string>, balances: seq<string>): (rows: seq<Row>)
    ensures |rows| <= |names| && |rows| <= |labels| && |rows| <= |balances|
    ensures |rows| == |names| || |rows| == |labels| || |rows| == |balances|
    ensures forall i :: 0 <= i < |rows| ==> rows[i] == Row(names[i], labels[i], balances[i])
  {
    if names == [] || labels == [] || balances == [] then []
    else [Row(names[0], labels[0], balances[0])] + Zip3(names[1..], labels[1..], balances[1..])
  }

  /** What the loop body yields for each row, in row order. */
  function ParseRows(rows: seq<Row>, parse: Parser): seq<Result<Record, BalanceError>> {
    seq(|rows|, i requires 0 <= i < |rows| => ParseRow(rows[i], parse))
  }

  /** `ParseRows` unfolded at every row. */
  lemma ParseRowsAt(rows: seq<Row>, parse: Parser)
    ensures |ParseRows(rows, parse)| == |rows|
    ensures forall i :: 0 <= i < |rows| ==> ParseRows(rows, parse)[i] == ParseRow(rows[i], parse)
  {
  }

  /** Every row's balance parsed. */
  predicate AllOk(outcomes: seq<Result<Record, BalanceError>>) {
    forall i :: 0 <= i < |outcomes| ==> outcomes[i].Ok?
  }

  /** The names of the rows that parsed. */
  function Keys(outcomes: seq<Result<Record, BalanceError>>): set<string> {
    set i | 0 <= i < |outcomes| && outcomes[i].Ok? :: outcomes[i].value.name
  }

  /** Row `i` is the first that raised, and it raised `e`. */
  predicate FirstFailure(outcomes: seq<Result<Record, BalanceError>>, i: int, e: BalanceError) {
    0 <= i < |outcomes| && outcomes[i] == Err(e) && AllOk(outcomes[..i])
  }

  /** The `for` loop: the dictionary after the last row, or the exception of
      the first row that raised. Entries are written in row order, so a later
      row overwrites an earlier one of the same name. */
  function Collect(outcomes: seq<Result<Record, BalanceError>>): (r: Result<map<string, Decimal>, BalanceError>)
    ensures r.Ok? <==> AllOk(outcomes)
    ensures r.Ok? ==> r.value.Keys == Keys(outcomes)
    ensures r.Err? ==> exists i :: FirstFailure(outcomes, i, r.error)
  {
    if outcomes == [] then Ok(map[])
    else
      var front := outcomes[..|outcomes| - 1];
      var last := outcomes[|outcomes| - 1];
      SnocFacts(outcomes);
      match Collect(front)
      case Err(e) => Err(e)
      case Ok(data) =>
        match last
        case Err(e) => Err(e)
        case Ok(record) => Ok(data[record.name := record.balance])
  }

  /** How the row predicates extend by one row at the end. */
  lemma SnocFacts(outcomes: seq<Result<Record, BalanceError>>)
    requires outcomes != []
    ensures var front := outcomes[..|outcomes| - 1]; var last := outcomes[|outcomes| - 1];
      && (AllOk(outcomes) <==> AllOk(front) && last.Ok?)
      && (AllOk(outcomes) ==> Keys(outcomes) == Keys(front) + {last.value.name})
      && (forall i, e :: FirstFailure(front, i, e) ==> FirstFailure(outcomes, i, e))
      && (AllOk(front) && last.Err? ==> FirstFailure(outcomes, |outcomes| - 1, last.error))
  {
    var front := outcomes[..|outcomes| - 1];
    assert forall i :: 0 <= i < |front| ==> front[i] == outcomes[i];
    assert outcomes[..|outcomes| - 1] == front;
    forall i, e | FirstFailure(front, i, e)
      ensures FirstFailure(outcomes, i, e)
    {
      assert outcomes[..i] == front[..i];
    }
  }

  /** The dictionary after a row is the one before it with the row's entry
      written over. */
  lemma CollectSnoc(outcomes: seq<Result<Record, BalanceError>>)
    requires outcomes != [] && Collect(outcomes).Ok?
    ensures var front := outcomes[..|outcomes| - 1]; var last := outcomes[|outcomes| - 1];
      && Collect(front).Ok? && last.Ok?
      && Collect(outcomes).value == Collect(front).value[last.value.name := last.value.balance]
  {
  }

  /** A row that no later row shares its name with supplies that name's
      balance: the last write wins. */
  lemma {:induction false} CollectLastWins(outcomes: seq<Result<Record, BalanceError>>, i: nat)
    requires AllOk(outcomes) && i < |outcomes|
    requires forall j :: i < j < |outcomes| ==> outcomes[j].value.name != outcomes[i].value.name
    ensures Collect(outcomes).Ok?
    ensures outcomes[i].value.name in Collect(outcomes).value
    ensures Collect(outcomes).value[outcomes[i].value.name] == outcomes[i].value.balance
  {
    CollectSnoc(outcomes);
    var front := outcomes[..|outcomes| - 1];
    if i < |outcomes| - 1 {
      assert forall j :: 0 <= j < |front| ==> front[j] == outcomes[j];
      CollectLastWins(front, i);
    }
  }

  /** The dictionary has at most one entry per row. */
  lemma {:induction false} CollectSize(outcomes: seq<Result<Record, BalanceError>>)
    requires AllOk(outcomes)
    ensures Collect(outcomes).Ok?
    ensures |Collect(outcomes).value| <= |outcomes|
  {
    if outcomes != [] {
      CollectSnoc(outcomes);
      CollectSize(outcomes[..|outcomes| - 1]);
    }
  }

  /** The `for` loop of `usaa_get_data` over the three scraped columns,
      with `parse` for the balance expression. */
  function GetDataWith(parse: Parser, names: seq<string>, labels: seq<string>, balances: seq<string>): (r: Result<map<string, Decimal>, BalanceError>)
    ensures r.Ok? ==> |r.value| <= |names| && |r.value| <= |labels| && |r.value| <= |balances|
  {
    var outcomes := ParseRows(Zip3(names, labels, balances), parse);
    var r := Collect(outcomes);
    if r.Ok? then CollectSize(outcomes); r else r
  }

  /** `usaa_get_data` on one rendering of the page. */
  function GetData(names: seq<string>, labels: seq<string>, balances: seq<string>): (r: Result<map<string, Decimal>, BalanceError>)
    ensures r.Ok? ==> |r.value| <= |names| && |r.value| <= |labels| && |r.value| <= |balances|
  {
    GetDataWith(ParseBalance, names, labels, balances)
  }

  /** The loop succeeds exactly when every paired row's balance parses. */
  lemma GetDataSucceeds(parse: Parser, names: seq<string>, labels: seq<string>, balances: seq<string>)
    ensures GetDataWith(parse, names, labels, balances).Ok?
      <==> forall i :: 0 <= i < |Zip3(names, labels, balances)| ==> parse(balances[i]).Ok?
  {
    var rows := Zip3(names, labels, balances);
    var outcomes := ParseRows(rows, parse);
    ParseRowsAt(rows, parse);
    assert GetDataWith(parse, names, labels, balances) == Collect(outcomes);
    assert AllOk(outcomes) <==> forall i :: 0 <= i < |rows| ==> parse(balances[i]).Ok? by {
      forall i | 0 <= i < |rows|
        ensures outcomes[i].Ok? <==> parse(balances[i]).Ok?
      {
        assert rows[i].balanceText == balances[i];
      }
    }
  }

  /** When the loop succeeds, the keys are the paired rows' names. */
  lemma GetDataKeys(parse: Parser, names: seq<string>, labels: seq<string>, balances: seq<string>)
    ensures var r := GetDataWith(parse, names, labels, balances);
      r.Ok? ==> r.value.Keys == set i | 0 <= i < |Zip3(names, labels, balances)| :: ResolveName(names[i], labels[i])
  {
    var rows := Zip3(names, labels, balances);
    var outcomes := ParseRows(rows, parse);
    ParseRowsAt(rows, parse);
    assert GetDataWith(parse, names, labels, balances) == Collect(outcomes);
    if Collect(outcomes).Ok? {
      KeysWithinNames(rows, parse, names, labels, balances);
      NamesWithinKeys(rows, parse, names, labels, balances);
    }
  }

  lemma KeysWithinNames(rows: seq<Row>, parse: Parser, names: seq<string>, labels: seq<string>, balances: seq<string>)
    requires rows == Zip3(names, labels, balances)
    ensures Keys(ParseRows(rows, parse)) <= set i | 0 <= i < |rows| :: ResolveName(names[i], labels[i])
  {
    var outcomes := ParseRows(rows, parse);
    ParseRowsAt(rows, parse);
    forall k | k in Keys(outcomes)
      ensures exists i :: 0 <= i < |rows| && ResolveName(names[i], labels[i]) == k
    {
      var i :| 0 <= i < |outcomes| && outcomes[i].Ok? && outcomes[i].value.name == k;
      assert rows[i] == Row(names[i], labels[i], balances[i]);
    }
  }

  lemma NamesWithinKeys(rows: seq<Row>, parse: Parser, names: seq<string>, labels: seq<string>, balances: seq<string>)
    requires rows == Zip3(names, labels, balances)
    requires AllOk(ParseRows(rows, parse))
    ensures (set i | 0 <= i < |rows| :: ResolveName(names[i], labels[i])) <= Keys(ParseRows(rows, parse))
  {
    var outcomes := ParseRows(rows, parse);
    ParseRowsAt(rows, parse);
    forall i | 0 <= i < |rows|
      ensures ResolveName(names[i], labels[i]) in Keys(outcomes)
    {
      assert rows[i] == Row(names[i], labels[i], balances[i]);
      assert outcomes[i].Ok? && outcomes[i].value.name == ResolveName(names[i], labels[i]);
    }
  }

  /** When the loop raises, it raises the exception of the first paired row
      whose balance does not parse. */
  lemma GetDataFirstError(parse: Parser, names: seq<string>, labels: seq<string>, balances: seq<string>)
    ensures GetDataWith(parse, names, labels, balances).Err? ==> exists i :: (0 <= i < |Zip3(names, labels, balances)|
      && parse(balances[i]) == Err(GetDataWith(parse, names, labels, balances).error)
      && forall j :: 0 <= j < i ==> parse(balances[j]).Ok?)
  {
    var rows := Zip3(names, labels, balances);
    var outcomes := ParseRows(rows, parse);
    ParseRowsAt(rows, parse);
    assert GetDataWith(parse, names, labels, balances) == Collect(outcomes);
    if Collect(outcomes).Err? {
      var e := Collect(outcomes).error;
      var i :| FirstFailure(outcomes, i, e);
      FirstFailureParsed(rows, parse, i, e);
      assert forall j :: 0 <= j <= i ==> rows[j].balanceText == balances[j];
    }
  }

  /** The first row that raised is the first whose balance does not parse. */
  lemma FirstFailureParsed(rows: seq<Row>, parse: Parser, i: int, e: BalanceError)
    requires FirstFailure(ParseRows(rows, parse), i, e)
    ensures 0 <= i < |rows| && parse(rows[i].balanceText) == Err(e)
    ensures forall j :: 0 <= j < i ==> parse(rows[j].balanceText).Ok?
  {
    var outcomes := ParseRows(rows, parse);
    ParseRowsAt(rows, parse);
    assert forall j :: 0 <= j < i ==> outcomes[..i][j] == outcomes[j];
  }

  /** The balance of a name is that of the last paired row with that name. */
  lemma GetDataLastWins(parse: Parser, names: seq<string>, labels: seq<string>, balances: seq<string>, i: nat)
    requires i < |Zip3(names, labels, balances)|
    requires forall j :: i < j < |Zip3(names, labels, balances)| ==>
      ResolveName(names[j], labels[j]) != ResolveName(names[i], labels[i])
    ensures var r := GetDataWith(parse, names, labels, balances);
      r.Ok? ==> (parse(balances[i]).Ok? && ResolveName(names[i], labels[i]) in r.value
                 && r.value[ResolveName(names[i], labels[i])] == parse(balances[i]).value)
  {
    var rows := Zip3(names, labels, balances);
    var outcomes := ParseRows(rows, parse);
    ParseRowsAt(rows, parse);
    assert GetDataWith(parse, names, labels, balances) == Collect(outcomes);
    if Collect(outcomes).Ok? {
      assert outcomes[i].Ok?;
      assert rows[i] == Row(names[i], labels[i], balances[i]);
      assert outcomes[i].value == Record(ResolveName(names[i], labels[i]), parse(balances[i]).value);
      forall j | i < j < |outcomes|
        ensures outcomes[j].value.name != outcomes[i].value.name
      {
        assert outcomes[j].Ok?;
        assert rows[j] == Row(names[j], labels[j], balances[j]);
      }
      CollectLastWins(outcomes, i);
    }
  }

  // ---------------------------------------------------------------------
  // The retried call
  // ---------------------------------------------------------------------

  /** `@retry(max_tries=2, logger=logger)` on `usaa_get_data`: every
      exception is retried once, and logged. */
  function GetDataPolicy(): Retry.Policy<BalanceError> {
    Retry.Policy(2, _ => true, true)
  }

  /** The decorator as written around `usaa_get_data`, on a page that does
      not change between the two tries: a parse failure repeats, so the call raises the same
      exception after two tries, with one warning and one error logged. */
  lemma RetryOnStablePage(names: seq<string>, labels: seq<string>, balances: seq<string>)
    ensures var r := GetData(names, labels, balances);
      var run := Retry.WrapperAsWritten(GetDataPolicy(), _ => r);
      match r
      case Ok(data) => run == Retry.Run(Retry.Returned(data), 1, [])
      case Err(e) => run == Retry.Run(Retry.Raised(e), 2, [Retry.Warning(e, 1), Retry.Error(e, 2)])
  {
    StableRun(GetData(names, labels, balances));
  }

  lemma StableRun(r: Result<map<string, Decimal>, BalanceError>)
    ensures var run := Retry.WrapperAsWritten(GetDataPolicy(), _ => r);
      match r
      case Ok(data) => run == Retry.Run(Retry.Returned(data), 1, [])
      case Err(e) => run == Retry.Run(Retry.Raised(e), 2, [Retry.Warning(e, 1), Retry.Error(e, 2)])
  {
  }

  /** The decorator around `usaa_get_data` with a page that may change
      between the two tries: the logger is given, so the source's wrapper
      never fails on it, and every exception is retried once. */
  lemma GetDataRetries(op: nat -> Result<map<string, Decimal>, BalanceError>)
    ensures var run := Retry.WrapperAsWritten(GetDataPolicy(), op);
      && run == Retry.Wrapper(GetDataPolicy(), op)
      && (op(0).Ok? ==> run == Retry.Run(Retry.Returned(op(0).value), 1, []))
      && (op(0).Err? && op(1).Ok? ==>
            run == Retry.Run(Retry.Returned(op(1).value), 2, [Retry.Warning(op(0).error, 1)]))
      && (op(0).Err? && op(1).Err? ==>
            run == Retry.Run(Retry.Raised(op(1).error), 2, [Retry.Warning(op(0).error, 1), Retry.Error(op(1).error, 2)]))
  {
    var p := GetDataPolicy();
    Retry.AsWrittenDiffersOnlyWithoutLogger(p, op);
    if op(0).Ok? {
      Retry.SucceedsAfterFailures(p, op, 0);
    } else if op(1).Ok? {
      Retry.SucceedsAfterFailures(p, op, 1);
    } else {
      Retry.ExhaustsRetries(p, op);
    }
  }
}
