/** The retry decorator of helper_functions.py (`retry` / `retry_decorator` /
    `wrapper`).

    The decorated function is an operation `op` whose i-th invocation
    (counting from 0) returns or raises `op(i)`. The `exceptions` argument
    becomes the predicate `retryable` on error kinds, and the optional logger
    becomes the flag `hasLogger`; the log is a trace of abstract warning and
    error events. A call of the wrapper is modelled as a `Run`: how it exits,
    how many times it invoked the operation, and what it logged. */
module Retry {
  import opened Results

  /** One call of `logger.warning` (a retry) or `logger.error` (tries used up). */
  datatype LogEvent<K> =
    | Warning(error: K, remaining: int)
    | Error(error: K, maxTries: int)

  /** How a call of the wrapper ends. */
  datatype Exit<V, K> =
    | Returned(value: V)       // the operation returned `value`
    | Raised(error: K)         // `error` propagated out of the wrapper
    | ReturnedNone             // the loop body never ran
    | LoggerMissing(error: K)  // `logger.error` on a missing logger raised
                               // AttributeError while `error` was handled

  datatype Run<V, K> = Run(exit: Exit<V, K>, calls: nat, log: seq<LogEvent<K>>)

  /** The arguments of `retry(max_tries, exceptions, logger)`. */
  datatype Policy<!K> = Policy(maxTries: int, retryable: K -> bool, hasLogger: bool)

  /** `retry()` with its defaults: one try, no logger, and every exception
      matches `exceptions=Exception`. The error kinds `K` stand for subclasses
      of `Exception`; `KeyboardInterrupt` and `SystemExit` are not among them
      and are not modelled. */
  function DefaultPolicy<K>(): Policy<K> {
    Policy(1, _ => true, false)
  }

  /** An outcome the wrapper catches: it raised an error kind `exceptions` matches. */
  predicate RetryableFailure<V, K>(p: Policy<K>, o: Result<V, K>) {
    o.Err? && p.retryable(o.error)
  }

  /** The way the wrapper ends when it passes an outcome on unchanged. */
  function ExitOf<V, K>(o: Result<V, K>): Exit<V, K> {
    match o
    case Ok(v) => Returned(v)
    case Err(e) => Raised(e)
  }

  /** The `while` loop of `wrapper`, entered with `trials` invocations done.
      With `guarded` false, the error log on the last try is unconditional, as
      written in the source; with `guarded` true it is skipped when there is
      no logger, as the warning is. The log holds only the events of this and
      later iterations. */
  function Attempts<V, K>(p: Policy<K>, op: nat -> Result<V, K>, trials: nat, guarded: bool): (r: Run<V, K>)
    ensures trials < p.maxTries ==> trials < r.calls <= p.maxTries
    ensures r.exit.ReturnedNone? <==> trials >= p.maxTries
    ensures r.exit.ReturnedNone? ==> r.calls == trials && r.log == []
    ensures r.exit.LoggerMissing? ==> !guarded && !p.hasLogger
    ensures !p.hasLogger ==> r.log == []
    ensures |r.log| <= r.calls - trials
    decreases p.maxTries - trials
  {
    if trials >= p.maxTries then Run(ReturnedNone, trials, [])
    else
      var t := trials + 1;
      match op(trials)
      case Ok(v) => Run(Returned(v), t, [])
      case Err(e) =>
        if !p.retryable(e) then Run(Raised(e), t, [])
        else if t >= p.maxTries then
          if p.hasLogger then Run(Raised(e), t, [Error(e, p.maxTries)])
          else if guarded then Run(Raised(e), t, [])
          else Run(LoggerMissing(e), t, [])
        else
          var rest := Attempts(p, op, t, guarded);
          var warned := if p.hasLogger then [Warning(e, p.maxTries - t)] else [];
          rest.(log := warned + rest.log)
  }

  /** The decorated function as the source writes it. */
  function WrapperAsWritten<V, K>(p: Policy<K>, op: nat -> Result<V, K>): (r: Run<V, K>)
    ensures r.calls <= p.maxTries || r.calls == 0
    ensures r.calls == 0 <==> p.maxTries <= 0
    ensures r.exit.LoggerMissing? ==> !p.hasLogger
  {
    Attempts(p, op, 0, false)
  }

  /** The decorated function with the error log guarded by the presence of a
      logger, as the warning already is. The invocation count never exceeds
      `max_tries`, and with `max_tries <= 0` the operation is never invoked
      and the wrapper returns None. */
  function Wrapper<V, K>(p: Policy<K>, op: nat -> Result<V, K>): (r: Run<V, K>)
    ensures r.calls <= p.maxTries || r.calls == 0
    ensures r.calls == 0 <==> p.maxTries <= 0
    ensures p.maxTries <= 0 ==> r == Run(ReturnedNone, 0, [])
    ensures !r.exit.LoggerMissing?
  {
    Attempts(p, op, 0, true)
  }

  // ---------------------------------------------------------------------
  // An independent description of a run
  // ---------------------------------------------------------------------

  /** The index of the first invocation at or after `from` that does not end in
      a retryable failure, or `maxTries` when all of them up to the budget do. */
  function FirstStop<V, K>(p: Policy<K>, op: nat -> Result<V, K>, from: nat): (s: nat)
    ensures from <= s
    ensures from < p.maxTries ==> s <= p.maxTries
    ensures from >= p.maxTries ==> s == from
    ensures forall i :: from <= i < s ==> RetryableFailure(p, op(i))
    ensures s < p.maxTries ==> !RetryableFailure(p, op(s))
    decreases p.maxTries - from
  {
    if from >= p.maxTries || !RetryableFailure(p, op(from)) then from
    else FirstStop(p, op, from + 1)
  }

  /** One warning per failed invocation `from .. last-1`, each reporting the
      tries still left after it. */
  function Warnings<V, K>(p: Policy<K>, op: nat -> Result<V, K>, from: nat, last: nat): (w: seq<LogEvent<K>>)
    requires from <= last
    requires forall i :: from <= i < last ==> op(i).Err?
    ensures |w| == if p.hasLogger then last - from else 0
    ensures forall j :: 0 <= j < |w| ==> w[j] == Warning(op(from + j).error, p.maxTries - (from + j + 1))
    decreases last - from
  {
    if from == last || !p.hasLogger then []
    else [Warning(op(from).error, p.maxTries - (from + 1))] + Warnings(p, op, from + 1, last)
  }

  /** What a run entered with `from` invocations done must look like: it stops
      at the first invocation that is not a retryable failure, or after the
      last allowed one, having warned once about every invocation before. */
  function Expected<V, K>(p: Policy<K>, op: nat -> Result<V, K>, from: nat): Run<V, K> {
    var n := p.maxTries;
    if from >= n then Run(ReturnedNone, from, [])
    else
      var s := FirstStop(p, op, from);
      if s < n then Run(ExitOf(op(s)), s + 1, Warnings(p, op, from, s))
      else
        var e := op(n - 1).error;
        var tail := if p.hasLogger then [Error(e, n)] else [];
        Run(Raised(e), n, Warnings(p, op, from, n - 1) + tail)
  }

  /** `FirstStop` is pinned down by its contract. */
  lemma FirstStopIs<V, K>(p: Policy<K>, op: nat -> Result<V, K>, from: nat, k: nat)
    requires from <= k
    requires from < p.maxTries ==> k <= p.maxTries
    requires from >= p.maxTries ==> k == from
    requires forall i :: from <= i < k ==> RetryableFailure(p, op(i))
    requires k < p.maxTries ==> !RetryableFailure(p, op(k))
    ensures FirstStop(p, op, from) == k
  {
  }

  lemma {:induction false} AttemptsMeetExpected<V, K>(p: Policy<K>, op: nat -> Result<V, K>, from: nat)
    ensures Attempts(p, op, from, true) == Expected(p, op, from)
    decreases p.maxTries - from
  {
    var n := p.maxTries;
    if from < n {
      var o := op(from);
      if !RetryableFailure(p, o) {
        FirstStopIs(p, op, from, from);
      } else if from + 1 >= n {
        FirstStopIs(p, op, from, n);
      } else {
        AttemptsMeetExpected(p, op, from + 1);
        var s := FirstStop(p, op, from + 1);
        FirstStopIs(p, op, from, s);
      }
    }
  }

  /** The wrapper behaves as `Expected` describes. */
  lemma WrapperMeetsExpected<V, K>(p: Policy<K>, op: nat -> Result<V, K>)
    ensures Wrapper(p, op) == Expected(p, op, 0)
    ensures p.hasLogger || !Exhausts(p, op) ==> WrapperAsWritten(p, op) == Expected(p, op, 0)
  {
    AttemptsMeetExpected(p, op, 0);
    AsWrittenDiffersOnlyWithoutLogger(p, op);
  }

  // ---------------------------------------------------------------------
  // Properties of the wrapper
  // ---------------------------------------------------------------------

  /** k retryable failures followed by a success, with k < max_tries: the
      success value is returned after exactly k+1 invocations, with one
      warning per failure. */
  lemma SucceedsAfterFailures<V, K>(p: Policy<K>, op: nat -> Result<V, K>, k: nat)
    requires k < p.maxTries
    requires forall i :: 0 <= i < k ==> RetryableFailure(p, op(i))
    requires op(k).Ok?
    ensures var r := Wrapper(p, op);
      && r.exit == Returned(op(k).value)
      && r.calls == k + 1
      && |r.log| == (if p.hasLogger then k else 0)
      && (forall i :: 0 <= i < |r.log| ==> RetryableFailure(p, op(i)) && r.log[i] == Warning(op(i).error, p.maxTries - (i + 1)))
      && WrapperAsWritten(p, op) == r
  {
    WrapperMeetsExpected(p, op);
    FirstStopIs(p, op, 0, k);
    AsWrittenDiffersOnlyWithoutLogger(p, op);
  }

  /** Every invocation fails with a retryable error: the operation is invoked
      exactly max_tries times and the last error is raised unchanged, after
      max_tries-1 warnings and one error log. */
  lemma ExhaustsRetries<V, K>(p: Policy<K>, op: nat -> Result<V, K>)
    requires 1 <= p.maxTries
    requires forall i :: 0 <= i < p.maxTries ==> RetryableFailure(p, op(i))
    ensures var r := Wrapper(p, op); var n := p.maxTries; var e := assert RetryableFailure(p, op(n - 1)); op(n - 1).error;
      && r.exit == Raised(e)
      && r.calls == n
      && |r.log| == (if p.hasLogger then n else 0)
      && (p.hasLogger ==> r.log[n - 1] == Error(e, n))
      && (forall i :: 0 <= i < |r.log| - 1 ==> RetryableFailure(p, op(i)) && r.log[i] == Warning(op(i).error, n - (i + 1)))
      && (p.hasLogger ==> WrapperAsWritten(p, op) == r)
      && (!p.hasLogger ==> WrapperAsWritten(p, op) == r.(exit := LoggerMissing(e)))
  {
    WrapperMeetsExpected(p, op);
    FirstStopIs(p, op, 0, p.maxTries);
    AsWrittenDiffersOnlyWithoutLogger(p, op);
  }

  /** An error `exceptions` does not match escapes from the invocation that
      raised it: nothing further is invoked and nothing is logged about it. */
  lemma NonRetryableEscapes<V, K>(p: Policy<K>, op: nat -> Result<V, K>, j: nat)
    requires j < p.maxTries
    requires forall i :: 0 <= i < j ==> RetryableFailure(p, op(i))
    requires op(j).Err? && !p.retryable(op(j).error)
    ensures var r := Wrapper(p, op);
      && r.exit == Raised(op(j).error)
      && r.calls == j + 1
      && |r.log| == (if p.hasLogger then j else 0)
      && (forall i :: 0 <= i < |r.log| ==> RetryableFailure(p, op(i)) && r.log[i] == Warning(op(i).error, p.maxTries - (i + 1)))
      && WrapperAsWritten(p, op) == r
  {
    WrapperMeetsExpected(p, op);
    FirstStopIs(p, op, 0, j);
    AsWrittenDiffersOnlyWithoutLogger(p, op);
  }

  /** With a logger, every invocation but the last was a retryable failure and
      drew exactly one warning, whose remaining-tries count is
      max_tries - trials: at least 1, and strictly decreasing along the log. */
  lemma WarningsCountDown<V, K>(p: Policy<K>, op: nat -> Result<V, K>)
    ensures var r := Wrapper(p, op);
      && (p.hasLogger && r.calls >= 1 ==>
            && |r.log| >= r.calls - 1
            && forall i :: 0 <= i < |r.log| ==> (r.log[i].Warning? <==> i < r.calls - 1))
      && (forall i :: 0 <= i < |r.log| && r.log[i].Warning? ==>
            && RetryableFailure(p, op(i))
            && r.log[i].error == op(i).error
            && r.log[i].remaining == p.maxTries - (i + 1)
            && 1 <= r.log[i].remaining)
      && (forall i, j :: 0 <= i < j < |r.log| && r.log[i].Warning? && r.log[j].Warning? ==>
            r.log[j].remaining < r.log[i].remaining)
      && WrapperAsWritten(p, op).calls == r.calls
      && WrapperAsWritten(p, op).log == r.log
  {
    WrapperMeetsExpected(p, op);
    AsWrittenDiffersOnlyWithoutLogger(p, op);
    var r := Wrapper(p, op);
    var n := p.maxTries;
    if n >= 1 {
      var s := FirstStop(p, op, 0);
      var last := if s < n then s else n - 1;
      assert |Warnings(p, op, 0, last)| == (if p.hasLogger then last else 0);
      forall i | 0 <= i < |r.log| && r.log[i].Warning?
        ensures RetryableFailure(p, op(i)) && r.log[i].remaining == n - (i + 1) && r.log[i].error == op(i).error
      {
        assert i < last;
      }
    }
  }

  /** With max_tries = 1 (the default) the wrapper is a single plain call:
      one invocation, its outcome passed on, and no warning. */
  lemma SingleTry<V, K>(p: Policy<K>, op: nat -> Result<V, K>)
    requires p.maxTries == 1
    ensures var r := Wrapper(p, op);
      && r.calls == 1
      && r.exit == ExitOf(op(0))
      && (forall i :: 0 <= i < |r.log| ==> !r.log[i].Warning?)
      && (r.log != [] <==> p.hasLogger && RetryableFailure(p, op(0)))
      && (p.hasLogger || !RetryableFailure(p, op(0)) ==> WrapperAsWritten(p, op) == r)
      && (!p.hasLogger && RetryableFailure(p, op(0)) ==> WrapperAsWritten(p, op).exit == LoggerMissing(op(0).error))
  {
    WrapperMeetsExpected(p, op);
    FirstStopIs(p, op, 0, if RetryableFailure(p, op(0)) then 1 else 0);
    AsWrittenDiffersOnlyWithoutLogger(p, op);
  }

  /** The wrapper looks at no outcome beyond the invocations it makes: two
      operations that agree on those give the same run. */
  lemma {:induction false} OnlyInvokedOutcomesMatter<V, K>(p: Policy<K>, op: nat -> Result<V, K>, op': nat -> Result<V, K>)
    requires forall i :: 0 <= i < Wrapper(p, op).calls ==> op(i) == op'(i)
    ensures Wrapper(p, op') == Wrapper(p, op)
    ensures WrapperAsWritten(p, op') == WrapperAsWritten(p, op)
  {
    AttemptsAgree(p, op, op', 0, true);
    AsWrittenDiffersOnlyWithoutLogger(p, op);
    AttemptsAgree(p, op, op', 0, false);
  }

  lemma {:induction false} AttemptsAgree<V, K>(p: Policy<K>, op: nat -> Result<V, K>, op': nat -> Result<V, K>, from: nat, guarded: bool)
    requires forall i :: from <= i < Attempts(p, op, from, guarded).calls ==> op(i) == op'(i)
    ensures Attempts(p, op', from, guarded) == Attempts(p, op, from, guarded)
    decreases p.maxTries - from
  {
    if from < p.maxTries {
      assert op(from) == op'(from);
      if RetryableFailure(p, op(from)) && from + 1 < p.maxTries {
        AttemptsAgree(p, op, op', from + 1, guarded);
      }
    }
  }

  // ---------------------------------------------------------------------
  // The unguarded error log
  // ---------------------------------------------------------------------

  /** The run ends because every allowed invocation failed with a retryable error. */
  predicate Exhausts<V, K>(p: Policy<K>, op: nat -> Result<V, K>) {
    1 <= p.maxTries && FirstStop(p, op, 0) == p.maxTries
  }

  lemma {:induction false} AttemptsAsWritten<V, K>(p: Policy<K>, op: nat -> Result<V, K>, from: nat)
    requires from < p.maxTries
    ensures var w := Attempts(p, op, from, false); var c := Attempts(p, op, from, true);
      if !p.hasLogger && FirstStop(p, op, from) == p.maxTries
      then c.exit.Raised? && w == c.(exit := LoggerMissing(c.exit.error))
      else w == c
    decreases p.maxTries - from
  {
    if RetryableFailure(p, op(from)) && from + 1 < p.maxTries {
      AttemptsAsWritten(p, op, from + 1);
    }
  }

  /** As written, the wrapper differs from the guarded one in a single case:
      without a logger, when the tries are used up it raises AttributeError
      in place of the operation's error. With a logger the two agree. */
  lemma AsWrittenDiffersOnlyWithoutLogger<V, K>(p: Policy<K>, op: nat -> Result<V, K>)
    ensures var w := WrapperAsWritten(p, op); var c := Wrapper(p, op);
      && (p.hasLogger || !Exhausts(p, op) ==> w == c)
      && (!p.hasLogger && Exhausts(p, op) ==>
            c.exit.Raised? && w == c.(exit := LoggerMissing(c.exit.error)))
  {
    if 1 <= p.maxTries {
      AttemptsAsWritten(p, op, 0);
    }
  }

  /** With the defaults the guarded wrapper is a plain call: one invocation,
      its outcome passed on, nothing logged. The source's wrapper agrees
      whenever that invocation returns. */
  lemma DefaultIsPlainCall<V, K>(op: nat -> Result<V, K>)
    ensures Wrapper(DefaultPolicy(), op) == Run(ExitOf(op(0)), 1, [])
    ensures op(0).Ok? ==> WrapperAsWritten(DefaultPolicy(), op) == Run(Returned(op(0).value), 1, [])
  {
    SingleTry(DefaultPolicy(), op);
  }

  /** The source's defaults with an operation that raises: `retry()` wrapping a
      failing function raises AttributeError instead of the function's error. */
  lemma DefaultRetryLosesError<V, K>(op: nat -> Result<V, K>, e: K)
    requires op(0) == Err(e)
    ensures WrapperAsWritten(DefaultPolicy(), op).exit == LoggerMissing(e)
    ensures Wrapper(DefaultPolicy(), op).exit == Raised(e)
  {
  }
}
