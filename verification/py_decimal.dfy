/** The part of Python's `decimal` module the balance parser uses: building a
    `Decimal` from a string made of digits and points, and multiplying it by
    -1 under the default context (28 significant digits, ROUND_HALF_EVEN).

    A `Decimal` is a sign, an integer coefficient and a power-of-ten
    exponent, exactly as the module stores finite numbers; `Value` gives the
    number it denotes. */
module PyDecimal {
  import opened Results
  import opened PyText

  datatype Decimal = Decimal(negative: bool, coefficient: nat, exponent: int)

  /** The precision of Python's default decimal context. */
  const Precision: nat := 28

  function Pow10(k: nat): (r: nat)
    ensures r >= 1
  {
    if k == 0 then 1 else 10 * Pow10(k - 1)
  }

  /** 10 raised to `e`, for any integer `e`. */
  function Scale(e: int): real {
    if e >= 0 then Pow10(e) as real else 1.0 / Pow10(-e) as real
  }

  /** The number a `Decimal` stands for. */
  function Value(d: Decimal): real {
    var magnitude := d.coefficient as real * Scale(d.exponent);
    if d.negative then -magnitude else magnitude
  }

  lemma ValueSign(d: Decimal)
    ensures d.negative ==> Value(d) <= 0.0
    ensures !d.negative ==> Value(d) >= 0.0
  {
    assert Scale(d.exponent) > 0.0;
  }

  // ---------------------------------------------------------------------
  // Literals of digits and points
  // ---------------------------------------------------------------------

  /** An ASCII decimal digit. */
  predicate IsDigit(c: char) {
    '0' <= c <= '9'
  }

  /** A character the balance filter keeps: a digit or the decimal point. */
  predicate IsNumericChar(c: char) {
    IsDigit(c) || c == '.'
  }

  predicate AllDigits(s: string) {
    forall i :: 0 <= i < |s| ==> IsDigit(s[i])
  }

  predicate AllNumeric(s: string) {
    forall i :: 0 <= i < |s| ==> IsNumericChar(s[i])
  }

  predicate HasDigit(s: string) {
    exists i :: 0 <= i < |s| && IsDigit(s[i])
  }

  /** What `Decimal(s)` accepts among strings of digits and points: at most
      one point and at least one digit. */
  predicate IsLiteral(s: string) {
    Count(s, '.') <= 1 && HasDigit(s)
  }

  function DigitValue(c: char): nat
    requires IsDigit(c)
  {
    c as int - '0' as int
  }

  function DigitChar(n: nat): (c: char)
    requires n < 10
    ensures IsDigit(c) && DigitValue(c) == n
  {
    ('0' as int + n) as char
  }

  /** The number a string of digits spells, most significant digit first. */
  function DigitsValue(s: string): nat
    requires AllDigits(s)
  {
    if s == [] then 0 else 10 * DigitsValue(s[..|s| - 1]) + DigitValue(s[|s| - 1])
  }

  lemma AllDigitsConcat(a: string, b: string)
    requires AllDigits(a) && AllDigits(b)
    ensures AllDigits(a + b)
  {
    assert forall i :: 0 <= i < |a| ==> (a + b)[i] == a[i];
    assert forall i :: |a| <= i < |a + b| ==> (a + b)[i] == b[i - |a|];
  }

  /** A digit string contains no point. */
  lemma DigitsHaveNoPoint(s: string)
    requires AllDigits(s)
    ensures '.' !in s
  {
    assert forall j :: 0 <= j < |s| ==> s[j] != '.';
  }

  /** Appending digits shifts the digits before them left by that many places. */
  lemma {:induction false} DigitsValueConcat(a: string, b: string)
    requires AllDigits(a) && AllDigits(b)
    ensures AllDigits(a + b)
    ensures DigitsValue(a + b) == DigitsValue(a) * Pow10(|b|) + DigitsValue(b)
    decreases |b|
  {
    AllDigitsConcat(a, b);
    if b == [] {
      assert a + b == a;
    } else {
      var b' := b[..|b| - 1];
      assert (a + b)[..|a + b| - 1] == a + b';
      assert (a + b)[|a + b| - 1] == b[|b| - 1];
      DigitsValueConcat(a, b');
      ShiftStep(DigitsValue(a), Pow10(|b'|), DigitsValue(b'), DigitValue(b[|b| - 1]));
    }
  }

  /** A string of `n` digits spells a number below `10^n`. */
  lemma {:induction false} DigitsValueBelow(s: string)
    requires AllDigits(s)
    ensures DigitsValue(s) < Pow10(|s|)
  {
    if s != [] {
      var s' := s[..|s| - 1];
      DigitsValueBelow(s');
      assert DigitsValue(s) <= 10 * (Pow10(|s'|) - 1) + 9;
    }
  }

  lemma ShiftStep(x: int, p: int, y: int, d: int)
    ensures 10 * (x * p + y) + d == x * (10 * p) + (10 * y + d)
  {
  }

  /** `Decimal(s)` for a string of digits and points: `None` where Python
      raises `decimal.InvalidOperation`. The coefficient is the digits read
      as one integer; the exponent is minus the number of digits after the
      point. */
  function ParseLiteral(s: string): (r: Option<Decimal>)
    requires AllNumeric(s)
    ensures r.Some? <==> IsLiteral(s)
    ensures r.Some? ==> !r.value.negative && r.value.exponent <= 0
  {
    if '.' !in s then
      assert AllDigits(s);
      assert Count(s, '.') == 0;
      if s == [] then None
      else
        assert IsDigit(s[0]);
        Some(Decimal(false, DigitsValue(s), 0))
    else
      var i := IndexOf(s, '.');
      var whole := s[..i];
      var fraction := s[i + 1..];
      assert s == whole + ['.'] + fraction;
      assert multiset(s) == multiset(whole) + multiset{'.'} + multiset(fraction);
      assert AllDigits(whole) by {
        forall j | 0 <= j < |whole|
          ensures IsDigit(whole[j])
        {
          assert whole[j] == s[j];
          assert whole[j] in whole;
        }
      }
      if '.' in fraction then
        None
      else
        assert AllDigits(fraction) by {
          forall j | 0 <= j < |fraction|
            ensures IsDigit(fraction[j])
          {
            assert fraction[j] == s[i + 1 + j];
            assert fraction[j] in fraction;
          }
        }
        assert HasDigit(s) <==> whole != [] || fraction != [] by {
          if whole != [] {
            assert IsDigit(s[0]);
          } else if fraction != [] {
            assert IsDigit(s[i + 1]);
          } else {
            assert s == ['.'];
          }
        }
        if whole == [] && fraction == [] then
          None
        else
          DigitsValueConcat(whole, fraction);
          Some(Decimal(false, DigitsValue(whole + fraction), -|fraction|))
  }

  /** `whole.fraction` parses to the digits of both parts read as one
      integer, scaled down by the number of fraction digits. */
  lemma ParseParts(whole: string, fraction: string)
    requires AllDigits(whole) && AllDigits(fraction)
    requires whole != [] || fraction != []
    ensures AllNumeric(whole + "." + fraction)
    ensures AllDigits(whole + fraction)
    ensures ParseLiteral(whole + "." + fraction) == Some(Decimal(false, DigitsValue(whole + fraction), -|fraction|))
  {
    var s := whole + "." + fraction;
    PointedNumeric(whole, fraction);
    DigitsHaveNoPoint(whole);
    DigitsHaveNoPoint(fraction);
    AllDigitsConcat(whole, fraction);
    IndexOfAfter(whole, '.', fraction);
    assert s[..|whole|] == whole;
    assert s[|whole| + 1..] == fraction;
  }

  lemma PointedNumeric(whole: string, fraction: string)
    requires AllDigits(whole) && AllDigits(fraction)
    ensures AllNumeric(whole + "." + fraction)
  {
    var s := whole + "." + fraction;
    forall j | 0 <= j < |s|
      ensures IsNumericChar(s[j])
    {
      if j < |whole| {
        assert s[j] == whole[j];
      } else if j > |whole| {
        assert s[j] == fraction[j - |whole| - 1];
      }
    }
  }

  /** The value of `whole.fraction` is the whole part plus the fraction
      digits divided by ten to their count. */
  lemma LiteralValue(whole: string, fraction: string)
    requires AllDigits(whole) && AllDigits(fraction)
    requires whole != [] || fraction != []
    ensures AllNumeric(whole + "." + fraction)
    ensures ParseLiteral(whole + "." + fraction).Some?
    ensures Value(ParseLiteral(whole + "." + fraction).value)
      == DigitsValue(whole) as real + DigitsValue(fraction) as real / Pow10(|fraction|) as real
  {
    var s := whole + "." + fraction;
    ParseParts(whole, fraction);
    PartsValue(whole, fraction, ParseLiteral(s).value);
  }

  lemma PartsValue(whole: string, fraction: string, d: Decimal)
    requires AllDigits(whole) && AllDigits(fraction) && AllDigits(whole + fraction)
    requires d == Decimal(false, DigitsValue(whole + fraction), -|fraction|)
    ensures Value(d) == DigitsValue(whole) as real + DigitsValue(fraction) as real / Pow10(|fraction|) as real
  {
    DigitsValueConcat(whole, fraction);
    ScaledValue(d, DigitsValue(whole), DigitsValue(fraction), |fraction|);
  }

  lemma ScaledValue(d: Decimal, a: nat, b: nat, k: nat)
    requires d == Decimal(false, a * Pow10(k) + b, -(k as int))
    ensures Value(d) == a as real + b as real / Pow10(k) as real
  {
    ValueScaledDown(d, k);
    SplitQuotient(a, b, Pow10(k));
  }

  lemma ValueScaledDown(d: Decimal, k: nat)
    requires !d.negative && d.exponent == -(k as int)
    ensures Value(d) == d.coefficient as real / Pow10(k) as real
  {
    var p := Pow10(k) as real;
    if k == 0 {
      assert Scale(d.exponent) == 1.0;
    } else {
      assert Scale(d.exponent) == 1.0 / p;
      MulInverse(d.coefficient as real, p);
    }
  }

  lemma MulInverse(x: real, p: real)
    requires p > 0.0
    ensures x * (1.0 / p) == x / p
  {
  }

  lemma SplitQuotient(a: nat, b: nat, p: nat)
    requires p >= 1
    ensures (a * p + b) as real / p as real == a as real + b as real / p as real
  {
    CastMul(a, p);
    Unscale(a as real, b as real, p as real);
  }

  lemma CastMul(x: int, y: int)
    ensures (x * y) as real == x as real * y as real
  {
  }

  lemma Unscale(x: real, y: real, p: real)
    requires p > 0.0
    ensures (x * p + y) / p == x + y / p
  {
  }

  /** The decimal digits of `n`, zero-padded on the left to `width`. */
  function Digits(n: nat, width: nat): (s: string)
    ensures AllDigits(s) && |s| >= 1 && |s| >= width
    ensures DigitsValue(s) == n
    decreases n, width
  {
    if n < 10 && width <= 1 then
      [DigitChar(n)]
    else
      var front := Digits(n / 10, if width > 0 then width - 1 else 0);
      var s := front + [DigitChar(n % 10)];
      assert s[..|s| - 1] == front;
      s
  }

  /** A non-negative decimal with a non-positive exponent written as digits,
      with the point `-exponent` digits from the right when there is one. */
  function PlainLiteral(d: Decimal): string
    requires !d.negative && d.exponent <= 0
  {
    var k := -d.exponent;
    var ds := Digits(d.coefficient, k + 1);
    if k == 0 then ds else ds[..|ds| - k] + "." + ds[|ds| - k..]
  }

  /** `Decimal` reads back exactly the coefficient and exponent written. */
  lemma ParsePlainLiteral(d: Decimal)
    requires !d.negative && d.exponent <= 0
    ensures AllNumeric(PlainLiteral(d))
    ensures ParseLiteral(PlainLiteral(d)) == Some(d)
  {
    var k: nat := -d.exponent;
    var ds := Digits(d.coefficient, k + 1);
    assert AllDigits(ds) && |ds| > k && DigitsValue(ds) == d.coefficient;
    if k == 0 {
      assert PlainLiteral(d) == ds;
      ParseWhole(ds, d);
    } else {
      assert PlainLiteral(d) == ds[..|ds| - k] + "." + ds[|ds| - k..];
      ParsePointed(ds, k, d);
    }
  }

  lemma ParseWhole(ds: string, d: Decimal)
    requires AllDigits(ds) && ds != []
    requires d == Decimal(false, DigitsValue(ds), 0)
    ensures AllNumeric(ds)
    ensures ParseLiteral(ds) == Some(d)
  {
    DigitsHaveNoPoint(ds);
  }

  lemma ParsePointed(ds: string, k: nat, d: Decimal)
    requires AllDigits(ds) && 1 <= k < |ds|
    requires d == Decimal(false, DigitsValue(ds), -(k as int))
    ensures AllNumeric(ds[..|ds| - k] + "." + ds[|ds| - k..])
    ensures ParseLiteral(ds[..|ds| - k] + "." + ds[|ds| - k..]) == Some(d)
  {
    var whole := ds[..|ds| - k];
    var fraction := ds[|ds| - k..];
    assert AllDigits(whole) && AllDigits(fraction) && whole + fraction == ds by {
      CutDigits(ds, |ds| - k);
    }
    assert |fraction| == k;
    ParseParts(whole, fraction);
  }

  lemma CutDigits(ds: string, i: nat)
    requires AllDigits(ds) && i <= |ds|
    ensures AllDigits(ds[..i]) && AllDigits(ds[i..])
    ensures ds[..i] + ds[i..] == ds
  {
    assert forall j :: 0 <= j < i ==> ds[..i][j] == ds[j];
    assert forall j :: 0 <= j < |ds| - i ==> ds[i..][j] == ds[i + j];
  }

  // ---------------------------------------------------------------------
  // `-1 * d` under the default context
  // ---------------------------------------------------------------------

  /** The number of decimal digits of `c` (`0` has one). */
  function NumDigits(c: nat): (n: nat)
    ensures n >= 1 && c < Pow10(n)
    ensures n > 1 ==> Pow10(n - 1) <= c
  {
    if c < 10 then 1 else 1 + NumDigits(c / 10)
  }

  lemma MulSucc(a: int, m: int)
    ensures (a + 1) * m == a * m + m
  {
  }

  lemma MulCancelLess(a: nat, b: nat, m: nat)
    requires m >= 1 && a * m < b * m
    ensures a < b
  {
  }

  lemma CarryScale(a: int, b: int, a10: int, b10: int)
    requires a10 == 10 * a && b10 == 10 * b
    ensures a * b10 == a10 * b
  {
  }

  lemma {:induction false} PowAdd(a: nat, b: nat)
    ensures Pow10(a + b) == Pow10(a) * Pow10(b)
    decreases a
  {
    if a > 0 {
      PowAdd(a - 1, b);
    }
  }

  lemma {:induction false} NumDigitsBelow(c: nat, k: nat)
    requires k >= 1 && c < Pow10(k)
    ensures NumDigits(c) <= k
    decreases k
  {
    if c >= 10 {
      assert Pow10(k) == 10 * Pow10(k - 1);
      assert k >= 2;
      assert c / 10 < Pow10(k - 1);
      NumDigitsBelow(c / 10, k - 1);
    }
  }

  /** `c` without its last `k` digits: `c / 10^k`. */
  function DropDigits(c: nat, k: nat): nat {
    if k == 0 then c else DropDigits(c / 10, k - 1)
  }

  /** The last `k` digits of `c`: `c % 10^k`. */
  function LastDigits(c: nat, k: nat): nat {
    if k == 0 then 0 else c % 10 + 10 * LastDigits(c / 10, k - 1)
  }

  /** Cutting `c` after its last `k` digits loses nothing. */
  lemma {:induction false} CutAt(c: nat, k: nat)
    ensures c == DropDigits(c, k) * Pow10(k) + LastDigits(c, k)
    ensures LastDigits(c, k) < Pow10(k)
  {
    if k > 0 {
      CutAt(c / 10, k - 1);
      var q := DropDigits(c / 10, k - 1);
      var p := Pow10(k - 1);
      var l := LastDigits(c / 10, k - 1);
      ShiftStep(q, p, l, c % 10);
    }
  }

  /** `c / 10^k` rounded to an integer by ROUND_HALF_EVEN, the rounding of the
      default context: up when the `k` discarded digits are above one half,
      or exactly one half and the kept part is odd. */
  function RoundHalfEven(c: nat, k: nat): nat
    requires k >= 1
  {
    var q := DropDigits(c, k);
    var rest := LastDigits(c, k);
    var half := 5 * Pow10(k - 1);
    if rest > half || (rest == half && q % 2 == 1) then q + 1 else q
  }

  /** ROUND_HALF_EVEN yields a nearest multiple of 10^k, and the even one on a tie. */
  lemma RoundHalfEvenNearest(c: nat, k: nat)
    requires k >= 1
    ensures var q := RoundHalfEven(c, k); var m := Pow10(k);
      && 2 * (q * m - c) <= m
      && 2 * (c - q * m) <= m
      && (2 * (c - q * m) == m || 2 * (q * m - c) == m ==> q % 2 == 0)
  {
    CutAt(c, k);
    assert Pow10(k) == 2 * (5 * Pow10(k - 1));
    HalfEvenArith(c, Pow10(k), DropDigits(c, k), LastDigits(c, k), 5 * Pow10(k - 1), RoundHalfEven(c, k));
  }

  lemma HalfEvenArith(c: int, m: int, q: int, rest: int, half: int, r: int)
    requires c == q * m + rest && 0 <= rest < m && m == 2 * half
    requires r == if rest > half || (rest == half && q % 2 == 1) then q + 1 else q
    ensures 2 * (r * m - c) <= m && 2 * (c - r * m) <= m
    ensures 2 * (c - r * m) == m || 2 * (r * m - c) == m ==> r % 2 == 0
  {
    MulSucc(q, m);
  }

  /** Rounding a number of `n` digits to its first `prec` digits yields at
      most 10^prec. */
  lemma RoundedFits(c: nat, n: nat, prec: nat, k: nat, q: nat)
    requires n == NumDigits(c) && n > prec && k == n - prec
    requires 2 * (q * Pow10(k) - c) <= Pow10(k)
    ensures q <= Pow10(prec)
  {
    PowAdd(prec, k);
    var m := Pow10(k);
    var top := Pow10(prec);
    assert c < top * m;
    MulSucc(top, m);
    assert q * m < (top + 1) * m;
    MulCancelLess(q, top + 1, m);
  }

  /** The exact result `negative, c, e` rounded to `prec` significant digits,
      as the context does after every operation (its `_fix` step). The
      discarded digits raise the exponent; when rounding carries into a new
      digit the coefficient is shortened by one more digit. A coefficient
      that already fits is kept as it is. */
  function RoundTo(prec: nat, negative: bool, c: nat, e: int): (r: Decimal)
    requires prec >= 1
    ensures r.negative == negative
    ensures r.exponent >= e
    ensures NumDigits(r.coefficient) <= prec
    ensures NumDigits(c) <= prec ==> r == Decimal(negative, c, e)
    ensures NumDigits(c) > prec ==> Pow10(prec - 1) <= r.coefficient
    ensures NumDigits(c) > prec ==> r.exponent == e + (NumDigits(c) - prec) || r.exponent == e + (NumDigits(c) - prec) + 1
    ensures NumDigits(c) > prec ==> RoundedTo(prec, c, e, r)
  {
    var n := NumDigits(c);
    if n <= prec then
      Decimal(negative, c, e)
    else
      RoundLong(prec, negative, c, e, n - prec)
  }

  /** `RoundTo` for a coefficient `k` digits longer than the precision. */
  function RoundLong(prec: nat, negative: bool, c: nat, e: int, k: nat): (r: Decimal)
    requires prec >= 1 && k >= 1 && k == NumDigits(c) - prec
    ensures r.negative == negative
    ensures r.exponent == e + k || r.exponent == e + k + 1
    ensures Pow10(prec - 1) <= r.coefficient
    ensures NumDigits(r.coefficient) <= prec
    ensures RoundedTo(prec, c, e, r)
  {
    var n := NumDigits(c);
    var q := RoundHalfEven(c, k);
    RoundHalfEvenNearest(c, k);
    RoundedFits(c, n, prec, k, q);
    if q == Pow10(prec) then
      var r := Decimal(negative, Pow10(prec - 1), e + k + 1);
      NumDigitsBelow(Pow10(prec - 1), prec);
      CarriedRounded(prec, c, e, k, r);
      r
    else
      var r := Decimal(negative, q, e + k);
      NumDigitsBelow(q, prec);
      RoundedKeepsDigits(c, n, prec, k, q);
      KeptRounded(prec, c, e, k, q, r);
      r
  }

  /** Rounding a number of `n > prec` digits to `prec` digits leaves a
      coefficient of `prec` digits: no leading digit is lost. */
  lemma RoundedKeepsDigits(c: nat, n: nat, prec: nat, k: nat, q: nat)
    requires prec >= 1 && n == NumDigits(c) && n > prec && k == n - prec
    requires 2 * (c - q * Pow10(k)) <= Pow10(k)
    ensures Pow10(prec - 1) <= q
  {
    var m := Pow10(k);
    var low := Pow10(prec - 1);
    PowAdd(prec - 1, k);
    assert low * m <= c;
    if q < low {
      MulSucc(q, m);
      MulLeq(q + 1, low, m);
    }
  }

  lemma MulLeq(a: int, b: int, m: int)
    requires a <= b && m >= 0
    ensures a * m <= b * m
  {
  }

  /** The coefficient of `r`, scaled to the exponent `e`. */
  function Rescaled(r: Decimal, e: int): int
    requires r.exponent >= e
  {
    r.coefficient * Pow10(r.exponent - e)
  }

  lemma RescaledIs(r: Decimal, e: int, a: nat, j: nat)
    requires r.exponent >= e && r.coefficient == a && r.exponent - e == j
    ensures Rescaled(r, e) == a * Pow10(j)
  {
  }

  /** `r` is `c * 10^e` correctly rounded to `prec` significant digits, for
      a coefficient `c` of more than `prec` digits, by ROUND_HALF_EVEN: a
      coefficient of exactly `prec` digits, whose value at exponent `e` is a
      multiple of 10^k (k the number of digits beyond `prec`) within half of
      10^k of `c`, the even multiple on a tie. The exponent grows by `k`, or
      by one more when the rounding reaches 10^n. */
  predicate RoundedTo(prec: nat, c: nat, e: int, r: Decimal)
    requires prec >= 1 && NumDigits(c) > prec
  {
    var k := NumDigits(c) - prec;
    var m := Pow10(k);
    && (r.exponent == e + k || r.exponent == e + k + 1)
    && Pow10(prec - 1) <= r.coefficient < Pow10(prec)
    && 2 * (Rescaled(r, e) - c) <= m
    && 2 * (c - Rescaled(r, e)) <= m
    && (2 * (Rescaled(r, e) - c) == m || 2 * (c - Rescaled(r, e)) == m ==> (Rescaled(r, e) / m) % 2 == 0)
  }

  lemma KeptRounded(prec: nat, c: nat, e: int, k: nat, q: nat, r: Decimal)
    requires prec >= 1 && NumDigits(c) > prec && k == NumDigits(c) - prec
    requires q == RoundHalfEven(c, k) && Pow10(prec - 1) <= q < Pow10(prec)
    requires r.coefficient == q && r.exponent == e + k
    ensures RoundedTo(prec, c, e, r)
  {
    RoundHalfEvenNearest(c, k);
    RescaledIs(r, e, q, k);
    DivMul(q, Pow10(k));
  }

  lemma CarriedRounded(prec: nat, c: nat, e: int, k: nat, r: Decimal)
    requires prec >= 1 && NumDigits(c) > prec && k == NumDigits(c) - prec
    requires RoundHalfEven(c, k) == Pow10(prec)
    requires r.coefficient == Pow10(prec - 1) && r.exponent == e + k + 1
    ensures RoundedTo(prec, c, e, r)
  {
    RoundHalfEvenNearest(c, k);
    CarryRescaled(r, e, prec, k);
    DivMul(Pow10(prec), Pow10(k));
  }

  lemma DivMul(a: nat, m: nat)
    requires m >= 1
    ensures (a * m) / m == a
  {
    var q := (a * m) / m;
    assert a * m == q * m + (a * m) % m;
    if q < a {
      MulSucc(q, m);
      MulLeq(q + 1, a, m);
    } else if a < q {
      MulSucc(a, m);
      MulLeq(a + 1, q, m);
    }
  }

  /** At most one result is correctly rounded: two numbers of `prec` digits
      nearest to `c`, with ties broken to even, are the same number. */
  lemma RoundedToUnique(prec: nat, c: nat, e: int, r: Decimal, r': Decimal)
    requires prec >= 1 && NumDigits(c) > prec
    requires RoundedTo(prec, c, e, r) && RoundedTo(prec, c, e, r')
    requires r.negative == r'.negative
    ensures r == r'
  {
    var k := NumDigits(c) - prec;
    var m := Pow10(k);
    var a := MultipleOf(r, e, k);
    var a' := MultipleOf(r', e, k);
    DivMul(a, m);
    DivMul(a', m);
    if a < a' {
      NearestEvenUnique(c, m, a', a);
    } else if a' < a {
      NearestEvenUnique(c, m, a, a');
    }
    SameRescaled(prec, e, k, r, r');
  }

  /** The value of a result at exponent `e` as a multiple of 10^k. */
  lemma MultipleOf(r: Decimal, e: int, k: nat) returns (a: nat)
    requires r.exponent == e + k || r.exponent == e + k + 1
    ensures Rescaled(r, e) == a * Pow10(k)
    ensures a == if r.exponent == e + k then r.coefficient else 10 * r.coefficient
  {
    if r.exponent == e + k {
      a := r.coefficient;
      RescaledIs(r, e, a, k);
    } else {
      a := 10 * r.coefficient;
      RescaledIs(r, e, r.coefficient, k + 1);
      CarryScale(r.coefficient, Pow10(k), a, Pow10(k + 1));
    }
  }

  /** Two multiples of `m` both within half of `m` from `c`, each even when
      exactly half away, are the same: `a > b` would force both to be exactly
      half away, hence both even, yet `a = b + 1`. */
  lemma NearestEvenUnique(c: int, m: int, a: int, b: int)
    requires m >= 1 && a >= b
    requires 2 * (a * m - c) <= m && 2 * (c - a * m) <= m
    requires 2 * (b * m - c) <= m && 2 * (c - b * m) <= m
    requires 2 * (a * m - c) == m || 2 * (c - a * m) == m ==> a % 2 == 0
    requires 2 * (b * m - c) == m || 2 * (c - b * m) == m ==> b % 2 == 0
    ensures a == b
  {
    if a > b {
      MulSucc(b, m);
      MulLeq(b + 1, a, m);
      if a >= b + 2 {
        MulSucc(b + 1, m);
        MulLeq(b + 2, a, m);
      }
      assert false;
    }
  }

  /** Two results of `prec` digits with the same value at exponent `e` are
      the same coefficient and exponent. */
  lemma SameRescaled(prec: nat, e: int, k: nat, r: Decimal, r': Decimal)
    requires prec >= 1 && r.negative == r'.negative
    requires r.exponent == e + k || r.exponent == e + k + 1
    requires r'.exponent == e + k || r'.exponent == e + k + 1
    requires Pow10(prec - 1) <= r.coefficient < Pow10(prec)
    requires Pow10(prec - 1) <= r'.coefficient < Pow10(prec)
    requires Rescaled(r, e) == Rescaled(r', e)
    ensures r == r'
  {
    var a := MultipleOf(r, e, k);
    var a' := MultipleOf(r', e, k);
    MulCancel(a, a', Pow10(k));
    assert Pow10(prec) == 10 * Pow10(prec - 1);
  }

  lemma MulCancel(a: nat, b: nat, m: nat)
    requires m >= 1 && a * m == b * m
    ensures a == b
  {
    if a < b {
      MulSucc(a, m);
      MulLeq(a + 1, b, m);
    } else if b < a {
      MulSucc(b, m);
      MulLeq(b + 1, a, m);
    }
  }

  /** The rounded result is within half a unit of its last digit of the
      exact one: no number with at most `prec` digits at its exponent is
      closer. */
  lemma RoundToNearest(prec: nat, negative: bool, c: nat, e: int)
    requires prec >= 1
    ensures var r := RoundTo(prec, negative, c, e); var m := Pow10(r.exponent - e);
      && 2 * (Rescaled(r, e) - c) <= m
      && 2 * (c - Rescaled(r, e)) <= m
  {
    var n := NumDigits(c);
    if n <= prec {
      assert Pow10(0) == 1;
    } else {
      var k: nat := n - prec;
      var q := RoundHalfEven(c, k);
      RoundHalfEvenNearest(c, k);
      if q == Pow10(prec) {
        CarryNearest(prec, negative, c, e, k, q);
      }
    }
  }

  lemma CarryNearest(prec: nat, negative: bool, c: nat, e: int, k: nat, q: nat)
    requires prec >= 1
    requires NumDigits(c) > prec && k == NumDigits(c) - prec
    requires q == RoundHalfEven(c, k) && q == Pow10(prec)
    ensures var r := RoundTo(prec, negative, c, e);
      r.exponent - e == k + 1 && Rescaled(r, e) == q * Pow10(k)
  {
    CarryResult(prec, negative, c, e, k);
    CarryRescaled(RoundTo(prec, negative, c, e), e, prec, k);
  }

  lemma CarryResult(prec: nat, negative: bool, c: nat, e: int, k: nat)
    requires prec >= 1
    requires NumDigits(c) > prec && k == NumDigits(c) - prec
    requires RoundHalfEven(c, k) == Pow10(prec)
    ensures RoundTo(prec, negative, c, e) == Decimal(negative, Pow10(prec - 1), e + k + 1)
  {
    assert RoundTo(prec, negative, c, e) == RoundLong(prec, negative, c, e, k);
  }

  lemma CarryRescaled(r: Decimal, e: int, prec: nat, k: nat)
    requires prec >= 1 && r.coefficient == Pow10(prec - 1) && r.exponent == e + k + 1
    ensures r.exponent - e == k + 1 && Rescaled(r, e) == Pow10(prec) * Pow10(k)
  {
    var q' := Pow10(prec - 1);
    var m1 := Pow10(k + 1);
    assert m1 == 10 * Pow10(k);
    assert Pow10(prec) == 10 * q';
    RescaledIs(r, e, q', k + 1);
    CarryScale(q', Pow10(k), Pow10(prec), m1);
  }

  /** `-1 * d`: the sign flips, the coefficient and exponent are the product's
      (1 times the coefficient, 0 plus the exponent), then the context rounds
      to `Precision` digits. A coefficient that already fits is kept, so the
      value is then exactly negated. */
  function NegateInContext(d: Decimal): (r: Decimal)
    ensures r.negative == !d.negative
    ensures r.exponent >= d.exponent
    ensures NumDigits(r.coefficient) <= Precision
    ensures NumDigits(d.coefficient) <= Precision ==>
      r.coefficient == d.coefficient && r.exponent == d.exponent
    ensures NumDigits(d.coefficient) > Precision ==> NumDigits(r.coefficient) == Precision
    ensures NumDigits(d.coefficient) > Precision ==>
      r.exponent == d.exponent + (NumDigits(d.coefficient) - Precision) || r.exponent == d.exponent + (NumDigits(d.coefficient) - Precision) + 1
    ensures NumDigits(d.coefficient) > Precision ==> RoundedTo(Precision, d.coefficient, d.exponent, r)
  {
    var r := RoundTo(Precision, !d.negative, d.coefficient, d.exponent);
    if NumDigits(d.coefficient) > Precision then
      RoundedDigits(Precision, d.coefficient, r);
      r
    else
      r
  }

  /** A coefficient rounded to `prec` digits has exactly `prec` digits. */
  lemma RoundedDigits(prec: nat, c: nat, r: Decimal)
    requires prec >= 1 && NumDigits(c) > prec
    requires Pow10(prec - 1) <= r.coefficient && NumDigits(r.coefficient) <= prec
    ensures NumDigits(r.coefficient) == prec
  {
    NumDigitsAbove(r.coefficient, prec);
  }

  /** A number of at least `10^(k-1)` has at least `k` digits. */
  lemma {:induction false} NumDigitsAbove(c: nat, k: nat)
    requires k >= 1 && Pow10(k - 1) <= c
    ensures k <= NumDigits(c)
    decreases k
  {
    if k > 1 {
      assert Pow10(k - 1) == 10 * Pow10(k - 2);
      assert Pow10(k - 2) <= c / 10;
      NumDigitsAbove(c / 10, k - 1);
    }
  }

  /** When the coefficient fits the precision, `-1 * d` is exactly `-d`. */
  lemma NegateExact(d: Decimal)
    requires NumDigits(d.coefficient) <= Precision
    ensures Value(NegateInContext(d)) == -Value(d)
  {
    var r := NegateInContext(d);
    assert r == Decimal(!d.negative, d.coefficient, d.exponent);
    FlipSign(d, r);
  }

  lemma FlipSign(d: Decimal, r: Decimal)
    requires r == Decimal(!d.negative, d.coefficient, d.exponent)
    ensures Value(r) == -Value(d)
  {
  }

  /** `-1 * d` is the correctly rounded negation of `d`: its coefficient at
      `d`'s exponent is within half a unit in its last place of `d`'s, and
      a coefficient longer than the precision is rounded half-even to
      exactly `Precision` digits. */
  lemma NegateIsNearest(d: Decimal)
    ensures var r := NegateInContext(d); var m := Pow10(r.exponent - d.exponent);
      && (NumDigits(d.coefficient) > Precision ==> NumDigits(r.coefficient) == Precision)
      && (NumDigits(d.coefficient) > Precision ==> RoundedTo(Precision, d.coefficient, d.exponent, r))
      && 2 * (Rescaled(r, d.exponent) - d.coefficient) <= m
      && 2 * (d.coefficient - Rescaled(r, d.exponent)) <= m
  {
    NegateRounds(d);
    RoundToNearest(Precision, !d.negative, d.coefficient, d.exponent);
  }

  lemma NegateRounds(d: Decimal)
    ensures NegateInContext(d) == RoundTo(Precision, !d.negative, d.coefficient, d.exponent)
  {
  }

  /** No other number is the correctly rounded negation: any `r` with the
      opposite sign that rounds `d`'s coefficient half-even to `Precision`
      digits is `-1 * d`. */
  lemma NegateIsUnique(d: Decimal, r: Decimal)
    requires NumDigits(d.coefficient) > Precision
    requires r.negative == !d.negative && RoundedTo(Precision, d.coefficient, d.exponent, r)
    ensures r == NegateInContext(d)
  {
    RoundedToUnique(Precision, d.coefficient, d.exponent, r, NegateInContext(d));
  }
}
