/**
  What a call of the current revision does, proved about `Retry.ExecuteSpec`
  (which `Retry.Execute` and `Retry.ExecuteAsync` meet): rejection of bad arguments
  before any attempt, the number of attempts, the returned value, the rethrown
  exception, the aggregate's contents, the observers' calls and where the waits fall.
 */
module RetryProperties {

  import opened Wrappers
  import opened TypeHierarchy
  import opened RetryTrace
  import opened Retry

  /** The intended loop bound `retryCount + 1`: the number of attempts a valid call may make. */
  function LoopBound(cfg: Config): int {
    cfg.retryCount as int + 1
  }

  // ----- One step of the loop, seen through the projections -----

  /** After a handled failure, every projection of the run is that of the attempt's events followed by that of the rest. */
  lemma HandledProjections<T>(h: Hierarchy, work: nat -> Outcome<T>, cfg: Config, bound: int, retry: nat, exceptions: seq<Exn>)
    requires WellFormed(h, work, cfg)
    requires retry < bound && HandledFailure(h, cfg.typesToHandle, work(retry))
    ensures var e := work(retry).exn;
            var run := Loop(h, work, cfg, bound, retry, exceptions);
            var rest := Loop(h, work, cfg, bound, retry + 1, exceptions + [e]);
            && run.result == rest.result
            && Attempts(run.trace) == [retry] + Attempts(rest.trace)
            && Observed(run.trace) == (if cfg.onEvery then [e] else []) + Observed(rest.trace)
            && Delays(run.trace) == (if retry < cfg.retryCount as int then 1 else 0) + Delays(rest.trace)
            && Finals(run.trace) == Finals(rest.trace)
  {
    var e := work(retry).exn;
    var step := [Attempt(retry)] + (if cfg.onEvery then [OnEvery(e)] else [])
                  + (if retry < cfg.retryCount as int then [Delay] else []);
    LoopHandled(h, work, cfg, bound, retry, exceptions);
    StepProjections(retry, e, cfg.onEvery, retry < cfg.retryCount as int);
    ProjectionsAppend(step, Loop(h, work, cfg, bound, retry + 1, exceptions + [e]).trace);
  }

  /** The projections of a run that ends with a success. */
  lemma SucceedsProjections<T>(h: Hierarchy, work: nat -> Outcome<T>, cfg: Config, bound: int, retry: nat, exceptions: seq<Exn>)
    requires WellFormed(h, work, cfg)
    requires retry < bound && work(retry).Ok?
    ensures var run := Loop(h, work, cfg, bound, retry, exceptions);
            && run.result == Returned(work(retry).value)
            && Attempts(run.trace) == [retry]
            && Observed(run.trace) == []
            && Delays(run.trace) == 0
            && Finals(run.trace) == []
  {
    LoopSucceeds(h, work, cfg, bound, retry, exceptions);
    ProjectionsSingle(Attempt(retry));
  }

  /** The projections of a run that ends with an unhandled exception. */
  lemma UnhandledProjections<T>(h: Hierarchy, work: nat -> Outcome<T>, cfg: Config, bound: int, retry: nat, exceptions: seq<Exn>)
    requires WellFormed(h, work, cfg)
    requires retry < bound && UnhandledFailure(h, cfg.typesToHandle, work(retry))
    ensures var e := work(retry).exn;
            var run := Loop(h, work, cfg, bound, retry, exceptions);
            && run.result == Rethrown(e)
            && Attempts(run.trace) == [retry]
            && Observed(run.trace) == (if cfg.onEvery then [e] else [])
            && Delays(run.trace) == 0
            && Finals(run.trace) == []
  {
    var e := work(retry).exn;
    var attempt := [Attempt(retry)] + (if cfg.onEvery then [OnEvery(e)] else []);
    LoopUnhandled(h, work, cfg, bound, retry, exceptions);
    StepProjections(retry, e, cfg.onEvery, false);
    assert attempt + [] == attempt;
  }

  /** The projections of a run whose attempts are used up. */
  lemma EndsProjections<T>(h: Hierarchy, work: nat -> Outcome<T>, cfg: Config, bound: int, retry: nat, exceptions: seq<Exn>)
    requires WellFormed(h, work, cfg)
    requires retry >= bound
    ensures var run := Loop(h, work, cfg, bound, retry, exceptions);
            && run.result == Aggregated(exceptions)
            && Attempts(run.trace) == []
            && Observed(run.trace) == []
            && Delays(run.trace) == 0
            && Finals(run.trace) == (if cfg.beforeFinal then [exceptions] else [])
  {
    LoopEnds(h, work, cfg, bound, retry, exceptions);
    if cfg.beforeFinal {
      ProjectionsSingle(OnFinal(exceptions));
    }
  }

  // ----- The loop, from any attempt on -----

  lemma {:induction false} LoopReturns<T>(h: Hierarchy, work: nat -> Outcome<T>, cfg: Config, retry: nat, exceptions: seq<Exn>, k: nat)
    requires WellFormed(h, work, cfg)
    requires retry <= k <= cfg.retryCount as int
    requires forall j | retry <= j < k :: HandledFailure(h, cfg.typesToHandle, work(j))
    requires work(k).Ok?
    ensures var run := Loop(h, work, cfg, LoopBound(cfg), retry, exceptions);
            && run.result == Returned(work(k).value)
            && Attempts(run.trace) == Range(retry, k + 1)
            && Observed(run.trace) == (if cfg.onEvery then Failures(work, retry, k) else [])
            && Delays(run.trace) == k - retry
            && Finals(run.trace) == []
    decreases k - retry
  {
    if retry == k {
      SucceedsProjections(h, work, cfg, LoopBound(cfg), retry, exceptions);
    } else {
      HandledProjections(h, work, cfg, LoopBound(cfg), retry, exceptions);
      LoopReturns(h, work, cfg, retry + 1, exceptions + [work(retry).exn], k);
    }
  }

  lemma {:induction false} LoopRethrows<T>(h: Hierarchy, work: nat -> Outcome<T>, cfg: Config, retry: nat, exceptions: seq<Exn>, k: nat)
    requires WellFormed(h, work, cfg)
    requires retry <= k <= cfg.retryCount as int
    requires forall j | retry <= j < k :: HandledFailure(h, cfg.typesToHandle, work(j))
    requires UnhandledFailure(h, cfg.typesToHandle, work(k))
    ensures var run := Loop(h, work, cfg, LoopBound(cfg), retry, exceptions);
            && run.result == Rethrown(work(k).exn)
            && Attempts(run.trace) == Range(retry, k + 1)
            && Observed(run.trace) == (if cfg.onEvery then Failures(work, retry, k + 1) else [])
            && Delays(run.trace) == k - retry
            && Finals(run.trace) == []
    decreases k - retry
  {
    if retry == k {
      UnhandledProjections(h, work, cfg, LoopBound(cfg), retry, exceptions);
    } else {
      HandledProjections(h, work, cfg, LoopBound(cfg), retry, exceptions);
      LoopRethrows(h, work, cfg, retry + 1, exceptions + [work(retry).exn], k);
    }
  }

  /** The every-exception observer's call for the unhandled exception is the last event of the run. */
  lemma {:induction false} LoopRethrowsLast<T>(h: Hierarchy, work: nat -> Outcome<T>, cfg: Config, retry: nat, exceptions: seq<Exn>, k: nat)
    requires WellFormed(h, work, cfg) && cfg.onEvery
    requires retry <= k <= cfg.retryCount as int
    requires forall j | retry <= j < k :: HandledFailure(h, cfg.typesToHandle, work(j))
    requires UnhandledFailure(h, cfg.typesToHandle, work(k))
    ensures var t := Loop(h, work, cfg, LoopBound(cfg), retry, exceptions).trace;
            |t| > 0 && t[|t| - 1] == OnEvery(work(k).exn)
    decreases k - retry
  {
    if retry < k {
      var e := work(retry).exn;
      var step := [Attempt(retry)] + (if cfg.onEvery then [OnEvery(e)] else [])
                    + (if retry < cfg.retryCount as int then [Delay] else []);
      LoopHandled(h, work, cfg, LoopBound(cfg), retry, exceptions);
      LoopRethrowsLast(h, work, cfg, retry + 1, exceptions + [e], k);
      LastOfAppend(step, Loop(h, work, cfg, LoopBound(cfg), retry + 1, exceptions + [e]).trace);
    } else {
      LoopUnhandled(h, work, cfg, LoopBound(cfg), retry, exceptions);
    }
  }

  /** A run that has collected the exceptions of the earlier attempts ends in their aggregate with all later ones. */
  lemma {:induction false} LoopAggregatesResult<T>(h: Hierarchy, work: nat -> Outcome<T>, cfg: Config, retry: nat, exceptions: seq<Exn>)
    requires WellFormed(h, work, cfg)
    requires retry <= cfg.retryCount as int
    requires forall j | retry <= j <= cfg.retryCount as int :: HandledFailure(h, cfg.typesToHandle, work(j))
    ensures Loop(h, work, cfg, LoopBound(cfg), retry, exceptions).result == Aggregated(exceptions + Failures(work, retry, LoopBound(cfg)))
    decreases cfg.retryCount as int - retry
  {
    var e := work(retry).exn;
    var collected := exceptions + [e];
    LoopHandled(h, work, cfg, LoopBound(cfg), retry, exceptions);
    var later := Failures(work, retry + 1, LoopBound(cfg));
    assert Failures(work, retry, LoopBound(cfg)) == [e] + later;
    assert collected + later == exceptions + ([e] + later);
    if retry < cfg.retryCount as int {
      LoopAggregatesResult(h, work, cfg, retry + 1, collected);
    } else {
      assert later == [];
      assert collected + later == collected;
    }
  }

  /** The final observer is called once, with the aggregate. */
  lemma {:induction false} LoopAggregatesFinal<T>(h: Hierarchy, work: nat -> Outcome<T>, cfg: Config, retry: nat, exceptions: seq<Exn>)
    requires WellFormed(h, work, cfg)
    requires retry <= cfg.retryCount as int
    requires forall j | retry <= j <= cfg.retryCount as int :: HandledFailure(h, cfg.typesToHandle, work(j))
    ensures Finals(Loop(h, work, cfg, LoopBound(cfg), retry, exceptions).trace) ==
            if cfg.beforeFinal then [exceptions + Failures(work, retry, LoopBound(cfg))] else []
    decreases cfg.retryCount as int - retry
  {
    var collected := exceptions + [work(retry).exn];
    HandledProjections(h, work, cfg, LoopBound(cfg), retry, exceptions);
    LoopAggregatesResult(h, work, cfg, retry, exceptions);
    if retry < cfg.retryCount as int {
      LoopAggregatesResult(h, work, cfg, retry + 1, collected);
      LoopAggregatesFinal(h, work, cfg, retry + 1, collected);
    } else {
      EndsProjections(h, work, cfg, LoopBound(cfg), retry + 1, collected);
    }
  }

  /** The final observer's call, with the aggregated exceptions, is the last event of the run. */
  lemma {:induction false} LoopAggregatesLast<T>(h: Hierarchy, work: nat -> Outcome<T>, cfg: Config, retry: nat, exceptions: seq<Exn>)
    requires WellFormed(h, work, cfg) && cfg.beforeFinal
    requires retry <= cfg.retryCount as int
    requires forall j | retry <= j <= cfg.retryCount as int :: HandledFailure(h, cfg.typesToHandle, work(j))
    ensures var run := Loop(h, work, cfg, LoopBound(cfg), retry, exceptions);
            run.result.Aggregated? && |run.trace| > 0 && run.trace[|run.trace| - 1] == OnFinal(run.result.inner)
    decreases cfg.retryCount as int - retry
  {
    var e := work(retry).exn;
    var step := [Attempt(retry)] + (if cfg.onEvery then [OnEvery(e)] else [])
                  + (if retry < cfg.retryCount as int then [Delay] else []);
    LoopHandled(h, work, cfg, LoopBound(cfg), retry, exceptions);
    var rest := Loop(h, work, cfg, LoopBound(cfg), retry + 1, exceptions + [e]);
    if retry < cfg.retryCount as int {
      LoopAggregatesLast(h, work, cfg, retry + 1, exceptions + [e]);
    } else {
      LoopEnds(h, work, cfg, LoopBound(cfg), retry + 1, exceptions + [e]);
    }
    LastOfAppend(step, rest.trace);
  }

  /** The same run invokes the work for every remaining attempt, observing each exception and waiting between them. */
  lemma {:induction false} LoopAggregatesTrace<T>(h: Hierarchy, work: nat -> Outcome<T>, cfg: Config, retry: nat, exceptions: seq<Exn>)
    requires WellFormed(h, work, cfg)
    requires retry <= cfg.retryCount as int
    requires forall j | retry <= j <= cfg.retryCount as int :: HandledFailure(h, cfg.typesToHandle, work(j))
    ensures var run := Loop(h, work, cfg, LoopBound(cfg), retry, exceptions);
            && Attempts(run.trace) == Range(retry, LoopBound(cfg))
            && Observed(run.trace) == (if cfg.onEvery then Failures(work, retry, LoopBound(cfg)) else [])
            && Delays(run.trace) == cfg.retryCount as int - retry
    decreases cfg.retryCount as int - retry
  {
    var collected := exceptions + [work(retry).exn];
    HandledProjections(h, work, cfg, LoopBound(cfg), retry, exceptions);
    if retry < cfg.retryCount as int {
      LoopAggregatesTrace(h, work, cfg, retry + 1, collected);
    } else {
      EndsProjections(h, work, cfg, LoopBound(cfg), retry + 1, collected);
    }
  }

  lemma {:induction false} LoopDelays<T>(h: Hierarchy, work: nat -> Outcome<T>, cfg: Config, retry: nat, exceptions: seq<Exn>)
    requires WellFormed(h, work, cfg)
    ensures var run := Loop(h, work, cfg, LoopBound(cfg), retry, exceptions);
            && DelaysBetweenAttempts(run.trace)
            && (retry < LoopBound(cfg) ==> |run.trace| > 0 && run.trace[0] == Attempt(retry))
    decreases LoopBound(cfg) - retry
  {
    if retry < LoopBound(cfg) {
      var attempt := [Attempt(retry)];
      match work(retry)
      case Ok(v) =>
        DelaysBetweenAttemptsStep(attempt, [], []);
        assert attempt + [] + [] == attempt;
      case Fail(e) =>
        var attempt := [Attempt(retry)] + (if cfg.onEvery then [OnEvery(e)] else []);
        if !Handles(h, cfg.typesToHandle, e) {
          DelaysBetweenAttemptsStep(attempt, [], []);
          assert attempt + [] + [] == attempt;
        } else {
          var delay := if retry < cfg.retryCount as int then [Delay] else [];
          LoopDelays(h, work, cfg, retry + 1, exceptions + [e]);
          DelaysBetweenAttemptsStep(attempt, delay, Loop(h, work, cfg, LoopBound(cfg), retry + 1, exceptions + [e]).trace);
        }
    }
  }

  // ----- A whole call -----

  /** A call whose arguments pass validation is the loop from attempt 0 with nothing collected. */
  lemma ValidCallLoops<T>(h: Hierarchy, work: nat -> Outcome<T>, cfg: Config)
    requires WellFormed(h, work, cfg) && ValidArguments(h, cfg)
    ensures ExecuteSpec(h, work, cfg) == Loop(h, work, cfg, LoopBound(cfg), 0, [])
  {
  }

  /** A negative count is rejected with its value, and the work is never invoked. */
  lemma NegativeRetryCountRejected<T>(h: Hierarchy, work: nat -> Outcome<T>, cfg: Config)
    requires WellFormed(h, work, cfg) && cfg.retryCount < 0
    ensures ExecuteSpec(h, work, cfg) == Run(ArgError(NegativeRetryCount(cfg.retryCount as int)), [])
  {
  }

  /**
    A filter with entries that are not exception types is rejected before any
    attempt, reporting how many there are and the names of all of them, in filter order
    (`NotExceptionsMembers` says which entries those are).
   */
  lemma NonExceptionFilterRejected<T>(h: Hierarchy, work: nat -> Outcome<T>, cfg: Config)
    requires WellFormed(h, work, cfg) && cfg.retryCount >= 0
    requires exists i | 0 <= i < |cfg.typesToHandle| :: !IsException(h, cfg.typesToHandle[i])
    ensures var bad := NotExceptions(h, cfg.typesToHandle);
            && ExecuteSpec(h, work, cfg) == Run(ArgError(NotExceptionTypes(|bad|, Names(h, bad))), [])
            && |bad| > 0
  {
    NotExceptionsMembers(h, cfg.typesToHandle);
  }

  /** Validation passes exactly for a non-negative count and a filter of exception types. */
  lemma ValidationPasses(h: Hierarchy, cfg: Config)
    requires h.Valid() && AllIn(h, cfg.typesToHandle)
    ensures ValidateParameters(h, cfg.retryCount, cfg.typesToHandle).None? <==> ValidArguments(h, cfg)
  {
  }

  /** When attempt k is the first success, the work runs exactly k + 1 times and its value is returned. */
  lemma FirstSuccessReturns<T>(h: Hierarchy, work: nat -> Outcome<T>, cfg: Config, k: nat)
    requires WellFormed(h, work, cfg) && ValidArguments(h, cfg)
    requires k <= cfg.retryCount as int
    requires forall j | 0 <= j < k :: HandledFailure(h, cfg.typesToHandle, work(j))
    requires work(k).Ok?
    ensures var run := ExecuteSpec(h, work, cfg);
            && run.result == Returned(work(k).value)
            && Attempts(run.trace) == Range(0, k + 1)
            && Observed(run.trace) == (if cfg.onEvery then Failures(work, 0, k) else [])
            && Delays(run.trace) == k
            && Finals(run.trace) == []
  {
    ValidCallLoops(h, work, cfg);
    LoopReturns(h, work, cfg, 0, [], k);
  }

  /**
    An exception that a non-empty filter does not match is rethrown as is, at once:
    the every-exception observer has seen it, and there is no further attempt, no
    wait after it and no final observer.
   */
  lemma UnhandledFailureRethrown<T>(h: Hierarchy, work: nat -> Outcome<T>, cfg: Config, k: nat)
    requires WellFormed(h, work, cfg) && ValidArguments(h, cfg)
    requires k <= cfg.retryCount as int
    requires forall j | 0 <= j < k :: HandledFailure(h, cfg.typesToHandle, work(j))
    requires UnhandledFailure(h, cfg.typesToHandle, work(k))
    ensures var run := ExecuteSpec(h, work, cfg);
            && |cfg.typesToHandle| > 0
            && run.result == Rethrown(work(k).exn)
            && Attempts(run.trace) == Range(0, k + 1)
            && Observed(run.trace) == (if cfg.onEvery then Failures(work, 0, k + 1) else [])
            && (cfg.onEvery ==> run.trace[|run.trace| - 1] == OnEvery(work(k).exn))
            && Delays(run.trace) == k
            && Finals(run.trace) == []
  {
    ValidCallLoops(h, work, cfg);
    LoopRethrows(h, work, cfg, 0, [], k);
    if cfg.onEvery {
      LoopRethrowsLast(h, work, cfg, 0, [], k);
    }
  }

  /**
    When every attempt throws a handled exception, the call ends in an aggregate of
    exactly those exceptions, one per attempt, in attempt order.
   */
  lemma ExhaustionAggregates<T>(h: Hierarchy, work: nat -> Outcome<T>, cfg: Config)
    requires WellFormed(h, work, cfg) && ValidArguments(h, cfg)
    requires forall j | 0 <= j <= cfg.retryCount as int :: HandledFailure(h, cfg.typesToHandle, work(j))
    ensures var all := Failures(work, 0, LoopBound(cfg));
            && ExecuteSpec(h, work, cfg).result == Aggregated(all)
            && |all| == LoopBound(cfg)
            && (forall i | 0 <= i < LoopBound(cfg) :: work(i) == Fail(all[i]))
  {
    ValidCallLoops(h, work, cfg);
    LoopAggregatesResult(h, work, cfg, 0, []);
    FailuresAt(work, 0, LoopBound(cfg));
    assert [] + Failures(work, 0, LoopBound(cfg)) == Failures(work, 0, LoopBound(cfg));
  }

  /**
    In the same case the work runs exactly retryCount + 1 times, the every-exception
    observer sees each exception, and the call waits retryCount times.
   */
  lemma ExhaustionAttempts<T>(h: Hierarchy, work: nat -> Outcome<T>, cfg: Config)
    requires WellFormed(h, work, cfg) && ValidArguments(h, cfg)
    requires forall j | 0 <= j <= cfg.retryCount as int :: HandledFailure(h, cfg.typesToHandle, work(j))
    ensures var run := ExecuteSpec(h, work, cfg);
            && Attempts(run.trace) == Range(0, LoopBound(cfg))
            && Observed(run.trace) == (if cfg.onEvery then Failures(work, 0, LoopBound(cfg)) else [])
            && Delays(run.trace) == cfg.retryCount as int
  {
    ValidCallLoops(h, work, cfg);
    LoopAggregatesTrace(h, work, cfg, 0, []);
  }

  /** In the same case the final observer is called once, last, with the aggregate that is thrown. */
  lemma ExhaustionFinal<T>(h: Hierarchy, work: nat -> Outcome<T>, cfg: Config)
    requires WellFormed(h, work, cfg) && ValidArguments(h, cfg)
    requires forall j | 0 <= j <= cfg.retryCount as int :: HandledFailure(h, cfg.typesToHandle, work(j))
    ensures var run := ExecuteSpec(h, work, cfg);
            && run.result.Aggregated?
            && Finals(run.trace) == (if cfg.beforeFinal then [run.result.inner] else [])
            && (cfg.beforeFinal ==> |run.trace| > 0 && run.trace[|run.trace| - 1] == OnFinal(run.result.inner))
  {
    ValidCallLoops(h, work, cfg);
    LoopAggregatesResult(h, work, cfg, 0, []);
    LoopAggregatesFinal(h, work, cfg, 0, []);
    if cfg.beforeFinal {
      LoopAggregatesLast(h, work, cfg, 0, []);
    }
  }

  /**
    Every call that passes validation starts with the first invocation, and every
    wait sits between a failed attempt and the next invocation: none before the
    first attempt, none after the last. A rejected call has no events at all.
   */
  lemma DelaysOnlyBetweenAttempts<T>(h: Hierarchy, work: nat -> Outcome<T>, cfg: Config)
    requires WellFormed(h, work, cfg)
    ensures var run := ExecuteSpec(h, work, cfg);
            && DelaysBetweenAttempts(run.trace)
            && (run.result.ArgError? <==> !ValidArguments(h, cfg))
            && (run.result.ArgError? ==> run.trace == [])
            && (!run.result.ArgError? ==> |run.trace| > 0 && run.trace[0] == Attempt(0))
  {
    LoopDelays(h, work, cfg, 0, []);
    if ValidArguments(h, cfg) {
      assert !Loop(h, work, cfg, LoopBound(cfg), 0, []).result.ArgError? by {
        LoopNeverRejects(h, work, cfg, LoopBound(cfg), 0, []);
      }
    }
  }

  /** Once validation has passed, the loop never ends in an argument error. */
  lemma {:induction false} LoopNeverRejects<T>(h: Hierarchy, work: nat -> Outcome<T>, cfg: Config, bound: int, retry: nat, exceptions: seq<Exn>)
    requires WellFormed(h, work, cfg)
    ensures !Loop(h, work, cfg, bound, retry, exceptions).result.ArgError?
    decreases bound - retry
  {
    if retry < bound && work(retry).Fail? && Handles(h, cfg.typesToHandle, work(retry).exn) {
      LoopNeverRejects(h, work, cfg, bound, retry + 1, exceptions + [work(retry).exn]);
    }
  }

  // ----- The 32-bit loop bound -----

  /**
    As written, a retry count of `int.MaxValue` makes `retryCount + 1` wrap to
    `int.MinValue`: the loop body never runs, so the work is never invoked and an
    empty aggregate is thrown.
   */
  lemma MaxRetryCountNeverInvokesWork<T>(h: Hierarchy, work: nat -> Outcome<T>, cfg: Config)
    requires WellFormed(h, work, cfg) && ValidArguments(h, cfg)
    requires cfg.retryCount == 0x7fff_ffff
    ensures var run := ExecuteSpecAsWritten(h, work, cfg);
            && run.result == Aggregated([])
            && Attempts(run.trace) == []
            && Finals(run.trace) == (if cfg.beforeFinal then [[]] else [])
  {
    assert Wrap32(0x8000_0000) as int == -0x8000_0000;
    if cfg.beforeFinal {
      ProjectionsSingle(OnFinal([]));
    }
  }

  /** As intended, a call that passes validation always invokes the work at least once, first as attempt 0. */
  lemma ValidCallInvokesWork<T>(h: Hierarchy, work: nat -> Outcome<T>, cfg: Config)
    requires WellFormed(h, work, cfg) && ValidArguments(h, cfg)
    ensures var run := ExecuteSpec(h, work, cfg);
            |Attempts(run.trace)| > 0 && Attempts(run.trace)[0] == 0
  {
    var run := ExecuteSpec(h, work, cfg);
    DelaysOnlyBetweenAttempts(h, work, cfg);
    ProjectionsAppend([run.trace[0]], run.trace[1..]);
    assert run.trace == [run.trace[0]] + run.trace[1..];
    ProjectionsSingle(Attempt(0));
  }
}
