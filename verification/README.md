# financial_aggregator: retry, `.env` filter and USAA balance extraction in Dafny

This project models the pure logic inside a small Selenium scraper that
collects account balances from bank websites. It has three parts:

- **`retry`** (helper_functions.py). This decorator re-invokes a function
  until it returns, until it raises an exception that `exceptions` does not
  match, or until `max_tries` invocations have been made. It logs a warning
  before each retry and an error when the tries run out. The source logs that
  error even when no logger was given, and then fails with AttributeError
  (see "## Findings"). The model therefore has two wrappers.
  `Retry.WrapperAsWritten` is the code as written. `Retry.Wrapper` guards
  the error log like the warning. The two agree whenever a logger is given.
  The scenario lemmas below are stated on `Retry.Wrapper`. Each of them
  also says what holds for `Retry.WrapperAsWritten`, and
  `Retry.AsWrittenDiffersOnlyWithoutLogger` carries any other property
  across.
- **`get_env_vars`** (helper_functions.py). It keeps the variables read from
  `.env` whose name starts with a given prefix and `_`.
- **`usaa_get_data`** (websites/usaa/__init__.py). The three columns of the
  accounts page are zipped row by row. Each row's name is resolved: a
  "Home Value Monitoring" row is named after its label. Each balance is
  parsed as a `Decimal`; the two-line "Negative $" form is negated. The rows
  are folded into a dictionary, where later rows overwrite earlier ones.
  The call is itself wrapped in `@retry(max_tries=2, logger=logger)`.

Modules:

- `Results`: `Result` (return or raise) and `Option`.
- `Retry`: the decorator's loop as a function of the invocation outcomes.
- `EnvVars`: the prefix filter.
- `PyText`: Python's `str.strip()`, `startswith` and `split(sep)`.
- `PyDecimal`: `Decimal(s)` on strings of digits and points, and `-1 * d`
  under the default context (28 digits, ROUND_HALF_EVEN). A `Decimal` is a
  sign, an integer coefficient and an exponent; `Value` gives the number it
  stands for.
- `Usaa`: the balance extraction and the fold.
- `UsaaExamples`: the extraction on the forms the page prints.

The decorated function is an outcome script `op: nat -> Result<V, K>`:
`op(i)` is what the i-th invocation (from 0) returns or raises. A call of
the wrapper is a `Run`, recording how it exits, how many invocations it
made, and the log events it emitted. `Expected` is an independent
description of a run, built from the first invocation that is not a
retryable failure. `WrapperMeetsExpected` proves the loop meets it, and
the per-scenario lemmas follow from that.

## Model

| member | source | states |
|---|---|---|
| Retry.Attempts | helper_functions.py:27-39 | From `trials` done, the loop makes at least one more and at most `max_tries` invocations. It returns None exactly when no try is left. Without a logger it logs nothing. At most one event is logged per invocation. |
| Retry.WrapperAsWritten | helper_functions.py:26-40 | The wrapper as written never exceeds `max_tries` invocations. It makes none exactly when `max_tries <= 0`. It can fail on the missing logger only when no logger was given. |
| Retry.Wrapper | helper_functions.py:26-40 | The wrapper with the error log guarded like the warning. It never exceeds `max_tries` invocations. When `max_tries <= 0` it invokes nothing, logs nothing and returns None. It never fails on the logger. |
| Retry.WrapperMeetsExpected | helper_functions.py:27-39 | Every run of the guarded wrapper equals `Expected`: it stops at the first invocation that is not a retryable failure, or raises the last error once `max_tries` are used. It warns once for each retried failure and logs one error when the tries run out. The source's wrapper equals `Expected` too, unless there is no logger and the tries run out. |
| Retry.SucceedsAfterFailures | helper_functions.py:27-31 | k matching failures, then a success, with k < max_tries: the success value is returned after exactly k+1 invocations. One warning is logged per failure, with max_tries-(i+1) tries remaining. The source's wrapper gives the same run. |
| Retry.ExhaustsRetries | helper_functions.py:28-36 | All invocations fail with matching errors: the operation is invoked exactly max_tries times. The guarded wrapper raises the last error unchanged. With a logger it logs max_tries-1 warnings and one error event, and the source's wrapper gives the same run. Without a logger nothing is logged, and the source's wrapper fails on the logger instead of raising. |
| Retry.NonRetryableEscapes | helper_functions.py:30-32 | A non-matching error escapes from the invocation that raised it. Nothing more is invoked, and no warning is logged for it. The source's wrapper gives the same run. |
| Retry.WarningsCountDown | helper_functions.py:33-39 | With a logger, each invocation but the last is a matching failure that drew exactly one warning. Its remaining count is max_tries-trials, at least 1 and strictly decreasing along the log. The source's wrapper makes the same invocations and logs the same events. |
| Retry.SingleTry | helper_functions.py:28-36 | With max_tries = 1 (the default) there is one invocation, and no warning is logged. The guarded wrapper passes the outcome on. An error event appears only for a matching failure with a logger. The source's wrapper gives the same run, except for a matching failure without a logger, where it fails on the logger. |
| Retry.DefaultIsPlainCall | helper_functions.py:9-36 | With `retry()`'s defaults (`DefaultPolicy`: one try, every exception matches, no logger), the guarded wrapper is a plain call: one invocation, its outcome passed on, nothing logged. The source's wrapper agrees when that invocation returns. |
| Retry.OnlyInvokedOutcomesMatter | helper_functions.py:28-31 | Two operations that agree on the invocations made give the same run, for the guarded wrapper and for the source's. |
| Retry.AsWrittenDiffersOnlyWithoutLogger | helper_functions.py:33-36 | The source's wrapper equals the guarded one, except when there is no logger and the tries run out. It then fails on the logger instead of raising the operation's error. |
| Retry.DefaultRetryLosesError | helper_functions.py:9-36 | `retry()` with its defaults around a raising function fails on the logger as written. The guarded wrapper raises the function's own error. |
| EnvVars.GetEnvVars | helper_functions.py:56-60 | The result is a sub-map of the values read, with values unchanged. A key is kept iff no prefix is given or the key starts with prefix + "_". Kept keys are longer than the prefix and have `_` right after it. |
| EnvVars.SelectedIff | helper_functions.py:59 | The key test `Selected` passes a key exactly when the key is longer than the prefix, begins with it, and has `_` right after it. |
| EnvVars.NoPrefixKeepsAll | helper_functions.py:59 | Without a prefix the result is everything read. |
| EnvVars.GetEnvVarsIdempotent | helper_functions.py:56-60 | Filtering again with the same prefix changes nothing. |
| EnvVars.UsaaCredentialsSelected | websites/usaa/__init__.py:16-18 | The three credential keys the USAA scraper reads pass the `usaa` prefix. A key without the `_` after the prefix does not. |
| PyText.StartsWithIff | websites/usaa/__init__.py:103 | `StartsWith(s, prefix)`, the model of `str.startswith`, holds exactly when `s` is `prefix` followed by the rest of `s`. Every text starts with the empty prefix. |
| PyText.Strip | websites/usaa/__init__.py:95-103 | `strip()` never lengthens a text, and its result neither starts nor ends with whitespace. |
| PyText.StripExact | websites/usaa/__init__.py:95-99 | `strip()` of a whitespace-padded core, with no whitespace at either end of the core, is that core. |
| PyText.StripIdempotent | websites/usaa/__init__.py:95-99 | Stripping twice is stripping once. |
| PyText.StripIgnoresPadding | websites/usaa/__init__.py:95-99 | Whitespace added around a text never changes what it strips to. |
| PyText.Split | websites/usaa/__init__.py:104 | `split(sep)` gives one more piece than there are separators, and no piece holds the separator. |
| PyText.JoinSplit | websites/usaa/__init__.py:104 | Joining the pieces of `split(sep)` with `sep` gives the text back. |
| PyText.SplitJoin | websites/usaa/__init__.py:104 | Splitting a join of separator-free pieces gives the pieces back. |
| PyDecimal.ParseLiteral | websites/usaa/__init__.py:104-106 | `Decimal(s)` on digits and points succeeds exactly when there is at most one point and at least one digit. The result is non-negative with exponent <= 0. |
| PyDecimal.LiteralValue | websites/usaa/__init__.py:104-106 | `Decimal("whole.fraction")` is the whole part plus the fraction digits divided by ten to their count. |
| PyDecimal.ParsePlainLiteral | websites/usaa/__init__.py:104-106 | Writing a non-negative decimal as digits with a point and reading it back gives the same coefficient and exponent. |
| PyDecimal.RoundTo | websites/usaa/__init__.py:104 | Rounding to `prec` digits keeps the sign and never lowers the exponent. A coefficient that fits is kept as it is. A longer one meets `RoundedTo`: exactly `prec` digits, the nearest multiple of 10^k (k the digits dropped), the even multiple on a tie. The exponent rises by k, or by k+1 when the rounding reaches the next power of ten. |
| PyDecimal.RoundedToUnique | websites/usaa/__init__.py:104 | At most one number meets `RoundedTo` for a given sign, so `RoundTo` is the correctly rounded result. |
| PyDecimal.NegateInContext | websites/usaa/__init__.py:104 | `-1 * d` flips the sign. The result fits the 28-digit precision and its exponent never decreases. A coefficient that already fits is kept with its exponent. A longer one is rounded half-even to exactly 28 digits (`RoundedTo`). |
| PyDecimal.NegateExact | websites/usaa/__init__.py:104 | When the coefficient fits the precision, `-1 * d` is exactly `-d`. |
| PyDecimal.NegateIsNearest | websites/usaa/__init__.py:104 | At `d`'s exponent, `-1 * d` lies within half a unit in its last kept place. A coefficient longer than 28 digits comes out with exactly 28 digits, rounded half-even (`RoundedTo`). |
| PyDecimal.NegateIsUnique | websites/usaa/__init__.py:104 | Any number of the opposite sign that rounds `d`'s coefficient half-even to 28 digits is `-1 * d`, so `-1 * d` is the correctly rounded negation. |
| PyDecimal.RoundHalfEvenNearest | websites/usaa/__init__.py:104 | ROUND_HALF_EVEN picks a nearest multiple of the dropped power of ten, and the even one on a tie. |
| Usaa.ResolveName | websites/usaa/__init__.py:95-99 | The name is the stripped label or the stripped product name, with no whitespace at either end. |
| Usaa.HomeNamedByLabel | websites/usaa/__init__.py:95-96 | When the stripped product name is "Home Value Monitoring", the name is the stripped label. |
| Usaa.OtherNamedByName | websites/usaa/__init__.py:97-99 | Otherwise the name is the stripped product name. |
| Usaa.ResolveNameIgnoresPadding | websites/usaa/__init__.py:95-99 | Whitespace around either text never changes the name. |
| Usaa.KeepNumeric | websites/usaa/__init__.py:106 | The filter's output holds only digits and points, and is no longer than its input. |
| Usaa.KeepNumericCounts | websites/usaa/__init__.py:106 | Every digit and point of the input survives the filter as often as it occurs. |
| Usaa.KeepNumericConcat | websites/usaa/__init__.py:106 | Filtering a concatenation concatenates the filtered parts, so the order is kept. |
| Usaa.KeepNumericChar | websites/usaa/__init__.py:106 | A single character is kept iff it is a digit or a point. |
| Usaa.KeepNumericOfNumeric | websites/usaa/__init__.py:106 | Digits and points pass unchanged. |
| Usaa.KeepNumericIdempotent | websites/usaa/__init__.py:104-106 | Filtering twice is filtering once. |
| Usaa.DecimalOfDigits | websites/usaa/__init__.py:106 | `Decimal` of the filtered text succeeds iff the filtered text is a literal. Otherwise it raises InvalidOperation. A result is non-negative. |
| Usaa.ParseBalance | websites/usaa/__init__.py:103-106 | Unmarked text: succeeds iff the filtered text is a literal, and is non-negative. Marked text: IndexError iff there is no newline. It succeeds iff the filtered second line is a literal, and is then negative. Failures are InvalidOperation. |
| Usaa.BalanceSign | websites/usaa/__init__.py:103-106 | An unmarked balance is >= 0 and a marked one is <= 0. |
| Usaa.MinusSignIgnored | websites/usaa/__init__.py:106 | A leading minus sign on an unmarked text changes nothing: the balance stays non-negative. |
| Usaa.NegativeMarkIgnoresPadding | websites/usaa/__init__.py:103 | The marker test `IsNegativeText` (the stripped text starts with "Negative $") gives the same answer with whitespace added around the text. |
| Usaa.LeadingSymbolNotNegative | websites/usaa/__init__.py:103 | A text whose first character is visible and not 'N' is not marked negative. |
| Usaa.PlainBalancesAgree | websites/usaa/__init__.py:106 | Unmarked texts that filter to the same characters have the same balance. |
| Usaa.BalanceOfDigits | websites/usaa/__init__.py:106 | An unmarked text that filters to `whole.fraction` is worth the whole part plus the fraction over ten to its length. |
| Usaa.BalanceOfWholeDigits | websites/usaa/__init__.py:106 | An unmarked text whose digits carry no point is worth the whole number they spell. |
| Usaa.NegativeBalanceValue | websites/usaa/__init__.py:103-104 | A marked balance whose digits fit the precision is exactly minus the value of its filtered second line. |
| Usaa.Zip3 | websites/usaa/__init__.py:89-93 | Rows pair the i-th texts of the three columns, up to the length of the shortest column. |
| Usaa.Collect | websites/usaa/__init__.py:88-111 | The fold succeeds iff every row parsed, with one key per parsed row's name. A failure is that of the first failing row. |
| Usaa.CollectLastWins | websites/usaa/__init__.py:109 | A row that no later row shares its name with supplies that name's balance. |
| Usaa.CollectSize | websites/usaa/__init__.py:109 | The dictionary has at most one entry per row. |
| Usaa.GetDataWith | websites/usaa/__init__.py:88-111 | The dictionary has at most as many keys as the shortest column has elements. |
| Usaa.GetData | websites/usaa/__init__.py:88-111 | `usaa_get_data` with `ParseBalance`: at most as many keys as the shortest column. |
| Usaa.GetDataSucceeds | websites/usaa/__init__.py:89-106 | The call succeeds iff every paired row's balance parses. |
| Usaa.GetDataKeys | websites/usaa/__init__.py:95-109 | On success, the keys are exactly the resolved names of the paired rows. |
| Usaa.GetDataFirstError | websites/usaa/__init__.py:89-106 | On failure, the error is that of the first paired row whose balance does not parse. Every earlier row parsed. |
| Usaa.GetDataLastWins | websites/usaa/__init__.py:109 | On success, a paired row whose name no later row repeats has a parsed balance, and it is that name's value. |
| Usaa.RetryOnStablePage | websites/usaa/__init__.py:69-70 | The source's wrapper with `GetDataPolicy` (two tries, a logger, every exception matches), on a page that does not change between tries. Success takes one try with no log. A parse failure is raised after two tries, with one warning and one error logged. |
| Usaa.GetDataRetries | websites/usaa/__init__.py:69-70 | The source's wrapper with `GetDataPolicy` on a page that may change: it equals the guarded wrapper. A first success returns at once. A first failure draws one warning, and the second try's outcome is passed on, with an error logged if it fails too. |
| UsaaExamples.HomeValueExample | websites/usaa/__init__.py:95-96 | A "Home Value Monitoring" row labelled "1236 ROSLYN ST" is named "1236 ROSLYN ST". |
| UsaaExamples.CheckingExample | websites/usaa/__init__.py:97-99 | A row whose product name is " Checking\n" is named "Checking". |
| UsaaExamples.DollarBalance | websites/usaa/__init__.py:106 | A balance shown as `$whole.fraction` is the number its digits spell. |
| UsaaExamples.ThousandsBalance | websites/usaa/__init__.py:106 | A balance shown as `$thousands,hundreds.fraction` (as in `$1,234.56`) is read as the digits of both groups together, worth thousands × 1000 + hundreds, plus the fraction. |
| UsaaExamples.NegativeDollarBalance | websites/usaa/__init__.py:103-104 | The two-line form, "Negative $…" then `-$whole.fraction`, is minus the number the digits spell, up to 28 digits. |

## Left out

- The Selenium driver is not modelled: `usaa_login`, `usaa_logout`, `find_element(s)`, `click`, `send_keys` and `driver.get`. These are calls into a browser library. The three `find_elements(...).text` columns become input sequences of strings.
- `sleep` and all timing are not modelled.
- `__main__.py` is not part of this model: browser set-up, `driver.quit` and logging configuration.
- The `.env` read (`dotenv_values()`) is an input map.
- Log message texts and `logger.info(f'{name}: {balance}')` are not modelled. Logging is reduced to abstract warning and error events; the info line has no effect on the result.
- Exception classes and `isinstance` matching are abstracted to error kinds and a predicate `retryable`.
- `functools.wraps` metadata is not modelled.
- The retried page is modelled by the outcome script only. A page that changes between tries is covered by the generic Retry lemmas, not by a model of the page.
- Other exceptions a Selenium call can raise inside `usaa_get_data` are left out. Only the two a row can raise are modelled: `IndexError` and `decimal.InvalidOperation`.
- `\d` in the filter matches every Unicode decimal digit in Python. The model keeps ASCII digits only, because the page shows ASCII amounts.
- `Decimal` exponent limits (Emin/Emax) and the traps other than InvalidOperation are not modelled. They cannot be reached by literals of digits and points of page size.
- Dictionary insertion order is not modelled: the result is a Dafny `map`.
- `max_tries <= 0`: the code invokes nothing and returns None. The model follows the code (`Retry.Wrapper`).
- Usaa.NegativeBalanceValue: exact negation is stated only for coefficients of at most 28 digits. Beyond that, `PyDecimal.NegateIsNearest` states the rounding instead.

## Findings

| source | as written | input that shows it | evidently intended | confidence | as-written member | corrected member |
|---|---|---|---|---|---|---|
| helper_functions.py:33-36 | `logger.error(...)` runs when the tries are used up, whether or not a logger was given | `retry()` with its defaults (no logger, one try) around a function that raises: `None.error` raises AttributeError, which replaces the function's own exception (Python keeps the original only as the new exception's `__context__`) | Guard the error log by `logger is not None`, as the warning at line 38 is, and raise the function's exception | high; not executed | Retry.WrapperAsWritten, Retry.DefaultRetryLosesError | Retry.Wrapper, Retry.AsWrittenDiffersOnlyWithoutLogger |
