/**
  What a call of the older revision does, proved about `LegacyRetry.ExecuteSpec`
  (which `LegacyRetry.Execute` meets): the count check, the number of attempts,
  the returned value, the rethrown exception (which the observer never sees), the
  aggregate's contents, the observer's calls and where the waits fall.
 */
module LegacyRetryProperties {

  import opened Wrappers
  import opened TypeHierarchy
  import opened RetryTrace
  import opened LegacyRetry

  /** The intended loop bound `retryCount + 1`: the number of attempts a valid call may make. */
  function LoopBound(cfg: LegacyConfig): int {
    cfg.retryCount as int + 1
  }

  // ----- One step of the loop, seen through the projections -----

  /** After a handled failure, every projection of the run is that of the attempt's events followed by that of the rest. */
  lemma HandledProjections<T>(h: Hierarchy, work: nat -> Outcome<T>, cfg: LegacyConfig, bound: int, retry: nat, exceptions: seq<Exn>)
    requires WellFormed(h, work, cfg)
    requires retry < bound && HandledFailure(h, cfg.exceptionTypes, work(retry))
    ensures var run := Loop(h, work, cfg, bound, retry, exceptions);
            var rest := Loop(h, work, cfg, bound, retry + 1, exceptions + [work(retry).exn]);
            && run.result == rest.result
            && Attempts(run.trace) == [retry] + Attempts(rest.trace)
            && Notifications(run.trace) == (if cfg.onException then 1 else 0) + Notifications(rest.trace)
            && Delays(run.trace) == (if retry < cfg.retryCount as int then 1 else 0) + Delays(rest.trace)
  {
    var step := [Attempt(retry)] + (if cfg.onException then [OnException] else [])
                  + (if retry < cfg.retryCount as int then [Delay] else []);
    LoopHandled(h, work, cfg, bound, retry, exceptions);
    NotifyStepProjections(retry, cfg.onException, retry < cfg.retryCount as int);
    ProjectionsAppend(step, Loop(h, work, cfg, bound, retry + 1, exceptions + [work(retry).exn]).trace);
  }

  /** The projections of a run that ends with a success or an unhandled exception: the invocation alone. */
  lemma LastAttemptProjections<T>(h: Hierarchy, work: nat -> Outcome<T>, cfg: LegacyConfig, bound: int, retry: nat, exceptions: seq<Exn>)
    requires WellFormed(h, work, cfg)
    requires retry < bound && (work(retry).Ok? || UnhandledFailure(h, cfg.exceptionTypes, work(retry)))
    ensures var run := Loop(h, work, cfg, bound, retry, exceptions);
            && run.result == (if work(retry).Ok? then Returned(work(retry).value) else Rethrown(work(retry).exn))
            && Attempts(run.trace) == [retry]
            && Notifications(run.trace) == 0
            && Delays(run.trace) == 0
  {
    if work(retry).Ok? {
      LoopSucceeds(h, work, cfg, bound, retry, exceptions);
    } else {
      LoopUnhandled(h, work, cfg, bound, retry, exceptions);
    }
    ProjectionsSingle(Attempt(retry));
  }

  // ----- The loop, from any attempt on -----

  lemma {:induction false} LoopReturns<T>(h: Hierarchy, work: nat -> Outcome<T>, cfg: LegacyConfig, retry: nat, exceptions: seq<Exn>, k: nat)
    requires WellFormed(h, work, cfg)
    requires retry <= k <= cfg.retryCount as int
    requires forall j | retry <= j < k :: HandledFailure(h, cfg.exceptionTypes, work(j))
    requires work(k).Ok?
    ensures var run := Loop(h, work, cfg, LoopBound(cfg), retry, exceptions);
            && run.result == Returned(work(k).value)
            && Attempts(run.trace) == Range(retry, k + 1)
            && Notifications(run.trace) == (if cfg.onException then k - retry else 0)
            && Delays(run.trace) == k - retry
    decreases k - retry
  {
    if retry == k {
      LastAttemptProjections(h, work, cfg, LoopBound(cfg), retry, exceptions);
    } else {
      HandledProjections(h, work, cfg, LoopBound(cfg), retry, exceptions);
      LoopReturns(h, work, cfg, retry + 1, exceptions + [work(retry).exn], k);
    }
  }

  lemma {:induction false} LoopRethrows<T>(h: Hierarchy, work: nat -> Outcome<T>, cfg: LegacyConfig, retry: nat, exceptions: seq<Exn>, k: nat)
    requires WellFormed(h, work, cfg)
    requires retry <= k <= cfg.retryCount as int
    requires forall j | retry <= j < k :: HandledFailure(h, cfg.exceptionTypes, work(j))
    requires UnhandledFailure(h, cfg.exceptionTypes, work(k))
    ensures var run := Loop(h, work, cfg, LoopBound(cfg), retry, exceptions);
            && run.result == Rethrown(work(k).exn)
            && Attempts(run.trace) == Range(retry, k + 1)
            && Notifications(run.trace) == (if cfg.onException then k - retry else 0)
            && Delays(run.trace) == k - retry
    decreases k - retry
  {
    if retry == k {
      LastAttemptProjections(h, work, cfg, LoopBound(cfg), retry, exceptions);
    } else {
      HandledProjections(h, work, cfg, LoopBound(cfg), retry, exceptions);
      LoopRethrows(h, work, cfg, retry + 1, exceptions + [work(retry).exn], k);
    }
  }

  /** The invocation that threw the unhandled exception is the last event of the run: nothing observes it. */
  lemma {:induction false} LoopRethrowsLast<T>(h: Hierarchy, work: nat -> Outcome<T>, cfg: LegacyConfig, retry: nat, exceptions: seq<Exn>, k: nat)
    requires WellFormed(h, work, cfg)
    requires retry <= k <= cfg.retryCount as int
    requires forall j | retry <= j < k :: HandledFailure(h, cfg.exceptionTypes, work(j))
    requires UnhandledFailure(h, cfg.exceptionTypes, work(k))
    ensures var t := Loop(h, work, cfg, LoopBound(cfg), retry, exceptions).trace;
            |t| > 0 && t[|t| - 1] == Attempt(k)
    decreases k - retry
  {
    if retry < k {
      var e := work(retry).exn;
      var step := [Attempt(retry)] + (if cfg.onException then [OnException] else [])
                    + (if retry < cfg.retryCount as int then [Delay] else []);
      LoopHandled(h, work, cfg, LoopBound(cfg), retry, exceptions);
      LoopRethrowsLast(h, work, cfg, retry + 1, exceptions + [e], k);
      LastOfAppend(step, Loop(h, work, cfg, LoopBound(cfg), retry + 1, exceptions + [e]).trace);
    } else {
      LoopUnhandled(h, work, cfg, LoopBound(cfg), retry, exceptions);
    }
  }

  /** A run that has collected the exceptions of the earlier attempts ends in their aggregate with all later ones. */
  lemma {:induction false} LoopAggregatesResult<T>(h: Hierarchy, work: nat -> Outcome<T>, cfg: LegacyConfig, retry: nat, exceptions: seq<Exn>)
    requires WellFormed(h, work, cfg)
    requires retry <= cfg.retryCount as int
    requires forall j | retry <= j <= cfg.retryCount as int :: HandledFailure(h, cfg.exceptionTypes, work(j))
    ensures Loop(h, work, cfg, LoopBound(cfg), retry, exceptions).result == Aggregated(exceptions + Failures(work, retry, LoopBound(cfg)))
    decreases cfg.retryCount as int - retry
  {
    var e := work(retry).exn;
    var collected := exceptions + [e];
    LoopHandled(h, work, cfg, LoopBound(cfg), retry, exceptions);
    var later := Failures(work, retry + 1, LoopBound(cfg));
    assert Failures(work, retry, LoopBound(cfg)) == [e] + later;
    assert collected + later == exceptions + ([e] + later);
    if retry < cfg.retryCount as int {
      LoopAggregatesResult(h, work, cfg, retry + 1, collected);
    } else {
      assert later == [];
      assert collected + later == collected;
    }
  }

  /** The same run invokes the work for every remaining attempt, notifying after each and waiting between them. */
  lemma {:induction false} LoopAggregatesTrace<T>(h: Hierarchy, work: nat -> Outcome<T>, cfg: LegacyConfig, retry: nat, exceptions: seq<Exn>)
    requires WellFormed(h, work, cfg)
    requires retry <= cfg.retryCount as int
    requires forall j | retry <= j <= cfg.retryCount as int :: HandledFailure(h, cfg.exceptionTypes, work(j))
    ensures var run := Loop(h, work, cfg, LoopBound(cfg), retry, exceptions);
            && Attempts(run.trace) == Range(retry, LoopBound(cfg))
            && Notifications(run.trace) == (if cfg.onException then LoopBound(cfg) - retry else 0)
            && Delays(run.trace) == cfg.retryCount as int - retry
    decreases cfg.retryCount as int - retry
  {
    HandledProjections(h, work, cfg, LoopBound(cfg), retry, exceptions);
    if retry < cfg.retryCount as int {
      LoopAggregatesTrace(h, work, cfg, retry + 1, exceptions + [work(retry).exn]);
    } else {
      assert Loop(h, work, cfg, LoopBound(cfg), retry + 1, exceptions + [work(retry).exn]).trace == [];
    }
  }

  /** The observer's call after the last attempt is the last event of the run: nothing follows it. */
  lemma {:induction false} LoopAggregatesLast<T>(h: Hierarchy, work: nat -> Outcome<T>, cfg: LegacyConfig, retry: nat, exceptions: seq<Exn>)
    requires WellFormed(h, work, cfg) && cfg.onException
    requires retry <= cfg.retryCount as int
    requires forall j | retry <= j <= cfg.retryCount as int :: HandledFailure(h, cfg.exceptionTypes, work(j))
    ensures var t := Loop(h, work, cfg, LoopBound(cfg), retry, exceptions).trace;
            |t| > 0 && t[|t| - 1] == OnException
    decreases cfg.retryCount as int - retry
  {
    var e := work(retry).exn;
    var step := [Attempt(retry)] + [OnException] + (if retry < cfg.retryCount as int then [Delay] else []);
    LoopHandled(h, work, cfg, LoopBound(cfg), retry, exceptions);
    var rest := Loop(h, work, cfg, LoopBound(cfg), retry + 1, exceptions + [e]);
    if retry < cfg.retryCount as int {
      LoopAggregatesLast(h, work, cfg, retry + 1, exceptions + [e]);
      LastOfAppend(step, rest.trace);
    } else {
      assert step + rest.trace == [Attempt(retry), OnException];
    }
  }

  lemma {:induction false} LoopDelays<T>(h: Hierarchy, work: nat -> Outcome<T>, cfg: LegacyConfig, retry: nat, exceptions: seq<Exn>)
    requires WellFormed(h, work, cfg)
    ensures var run := Loop(h, work, cfg, LoopBound(cfg), retry, exceptions);
            && DelaysBetweenAttempts(run.trace)
            && (retry < LoopBound(cfg) ==> |run.trace| > 0 && run.trace[0] == Attempt(retry))
    decreases LoopBound(cfg) - retry
  {
    if retry < LoopBound(cfg) {
      var attempt := [Attempt(retry)];
      match work(retry)
      case Ok(v) =>
        DelaysBetweenAttemptsStep(attempt, [], []);
        assert attempt + [] + [] == attempt;
      case Fail(e) =>
        if !Handles(h, cfg.exceptionTypes, e) {
          DelaysBetweenAttemptsStep(attempt, [], []);
          assert attempt + [] + [] == attempt;
        } else {
          var attempt := [Attempt(retry)] + (if cfg.onException then [OnException] else []);
          var delay := if retry < cfg.retryCount as int then [Delay] else [];
          LoopDelays(h, work, cfg, retry + 1, exceptions + [e]);
          DelaysBetweenAttemptsStep(attempt, delay, Loop(h, work, cfg, LoopBound(cfg), retry + 1, exceptions + [e]).trace);
        }
    }
  }

  /** The loop never ends in an argument error. */
  lemma {:induction false} LoopNeverRejects<T>(h: Hierarchy, work: nat -> Outcome<T>, cfg: LegacyConfig, bound: int, retry: nat, exceptions: seq<Exn>)
    requires WellFormed(h, work, cfg)
    ensures !Loop(h, work, cfg, bound, retry, exceptions).result.ArgError?
    decreases bound - retry
  {
    if retry < bound && work(retry).Fail? && Handles(h, cfg.exceptionTypes, work(retry).exn) {
      LoopNeverRejects(h, work, cfg, bound, retry + 1, exceptions + [work(retry).exn]);
    }
  }

  // ----- A whole call -----

  /** A call whose arguments pass validation is the loop from attempt 0 with nothing collected. */
  lemma ValidCallLoops<T>(h: Hierarchy, work: nat -> Outcome<T>, cfg: LegacyConfig)
    requires WellFormed(h, work, cfg) && cfg.retryCount >= 0
    ensures ExecuteSpec(h, work, cfg) == Loop(h, work, cfg, LoopBound(cfg), 0, [])
  {
  }

  /** A negative count is rejected with its value, and the work is never invoked. */
  lemma NegativeRetryCountRejected<T>(h: Hierarchy, work: nat -> Outcome<T>, cfg: LegacyConfig)
    requires WellFormed(h, work, cfg) && cfg.retryCount < 0
    ensures ExecuteSpec(h, work, cfg) == Run(ArgError(NegativeRetryCount(cfg.retryCount as int)), [])
  {
  }

  /** When attempt k is the first success, the work runs exactly k + 1 times and its value is returned. */
  lemma FirstSuccessReturns<T>(h: Hierarchy, work: nat -> Outcome<T>, cfg: LegacyConfig, k: nat)
    requires WellFormed(h, work, cfg) && cfg.retryCount >= 0
    requires k <= cfg.retryCount as int
    requires forall j | 0 <= j < k :: HandledFailure(h, cfg.exceptionTypes, work(j))
    requires work(k).Ok?
    ensures var run := ExecuteSpec(h, work, cfg);
            && run.result == Returned(work(k).value)
            && Attempts(run.trace) == Range(0, k + 1)
            && Notifications(run.trace) == (if cfg.onException then k else 0)
            && Delays(run.trace) == k
  {
    ValidCallLoops(h, work, cfg);
    LoopReturns(h, work, cfg, 0, [], k);
  }

  /**
    An exception that a non-empty filter does not match is rethrown as is, at once:
    the invocation that threw it is the last event, so the observer is not called
    for it, and there is no further attempt and no wait after it.
   */
  lemma UnhandledFailureRethrown<T>(h: Hierarchy, work: nat -> Outcome<T>, cfg: LegacyConfig, k: nat)
    requires WellFormed(h, work, cfg) && cfg.retryCount >= 0
    requires k <= cfg.retryCount as int
    requires forall j | 0 <= j < k :: HandledFailure(h, cfg.exceptionTypes, work(j))
    requires UnhandledFailure(h, cfg.exceptionTypes, work(k))
    ensures var run := ExecuteSpec(h, work, cfg);
            && |cfg.exceptionTypes| > 0
            && run.result == Rethrown(work(k).exn)
            && Attempts(run.trace) == Range(0, k + 1)
            && run.trace[|run.trace| - 1] == Attempt(k)
            && Notifications(run.trace) == (if cfg.onException then k else 0)
            && Delays(run.trace) == k
  {
    ValidCallLoops(h, work, cfg);
    LoopRethrows(h, work, cfg, 0, [], k);
    LoopRethrowsLast(h, work, cfg, 0, [], k);
  }

  /**
    When every attempt throws a handled exception, the call ends in an aggregate of
    exactly those exceptions, one per attempt, in attempt order.
   */
  lemma ExhaustionAggregates<T>(h: Hierarchy, work: nat -> Outcome<T>, cfg: LegacyConfig)
    requires WellFormed(h, work, cfg) && cfg.retryCount >= 0
    requires forall j | 0 <= j <= cfg.retryCount as int :: HandledFailure(h, cfg.exceptionTypes, work(j))
    ensures var all := Failures(work, 0, LoopBound(cfg));
            && ExecuteSpec(h, work, cfg).result == Aggregated(all)
            && |all| == LoopBound(cfg)
            && (forall i | 0 <= i < LoopBound(cfg) :: work(i) == Fail(all[i]))
  {
    ValidCallLoops(h, work, cfg);
    LoopAggregatesResult(h, work, cfg, 0, []);
    FailuresAt(work, 0, LoopBound(cfg));
    assert [] + Failures(work, 0, LoopBound(cfg)) == Failures(work, 0, LoopBound(cfg));
  }

  /**
    In the same case the work runs exactly retryCount + 1 times, the observer is
    called after each attempt, the last of them ends the run, and the call waits
    retryCount times.
   */
  lemma ExhaustionAttempts<T>(h: Hierarchy, work: nat -> Outcome<T>, cfg: LegacyConfig)
    requires WellFormed(h, work, cfg) && cfg.retryCount >= 0
    requires forall j | 0 <= j <= cfg.retryCount as int :: HandledFailure(h, cfg.exceptionTypes, work(j))
    ensures var run := ExecuteSpec(h, work, cfg);
            && Attempts(run.trace) == Range(0, LoopBound(cfg))
            && Notifications(run.trace) == (if cfg.onException then LoopBound(cfg) else 0)
            && Delays(run.trace) == cfg.retryCount as int
            && (cfg.onException ==> |run.trace| > 0 && run.trace[|run.trace| - 1] == OnException)
  {
    ValidCallLoops(h, work, cfg);
    LoopAggregatesTrace(h, work, cfg, 0, []);
    if cfg.onException {
      LoopAggregatesLast(h, work, cfg, 0, []);
    }
  }

  /**
    The filter is not validated: the only argument error is a negative count. Every
    other call starts with the first invocation, and every wait sits between a
    failed attempt and the next invocation. A rejected call has no events at all.
   */
  lemma DelaysOnlyBetweenAttempts<T>(h: Hierarchy, work: nat -> Outcome<T>, cfg: LegacyConfig)
    requires WellFormed(h, work, cfg)
    ensures var run := ExecuteSpec(h, work, cfg);
            && DelaysBetweenAttempts(run.trace)
            && (run.result.ArgError? <==> cfg.retryCount < 0)
            && (run.result.ArgError? ==> run.trace == [])
            && (!run.result.ArgError? ==> |run.trace| > 0 && run.trace[0] == Attempt(0))
  {
    LoopDelays(h, work, cfg, 0, []);
    if cfg.retryCount >= 0 {
      LoopNeverRejects(h, work, cfg, LoopBound(cfg), 0, []);
    }
  }

  // ----- The 32-bit loop bound -----

  /**
    As written, a retry count of `int.MaxValue` makes `retryCount + 1` wrap to
    `int.MinValue`: the loop body never runs, so the work is never invoked and an
    empty aggregate is thrown.
   */
  lemma MaxRetryCountNeverInvokesWork<T>(h: Hierarchy, work: nat -> Outcome<T>, cfg: LegacyConfig)
    requires WellFormed(h, work, cfg)
    requires cfg.retryCount == 0x7fff_ffff
    ensures ExecuteSpecAsWritten(h, work, cfg) == Run(Aggregated([]), [])
  {
    assert Wrap32(0x8000_0000) as int == -0x8000_0000;
  }

  /** As intended, a call with a non-negative count always invokes the work at least once, first as attempt 0. */
  lemma ValidCallInvokesWork<T>(h: Hierarchy, work: nat -> Outcome<T>, cfg: LegacyConfig)
    requires WellFormed(h, work, cfg) && cfg.retryCount >= 0
    ensures var run := ExecuteSpec(h, work, cfg);
            |Attempts(run.trace)| > 0 && Attempts(run.trace)[0] == 0
  {
    var run := ExecuteSpec(h, work, cfg);
    DelaysOnlyBetweenAttempts(h, work, cfg);
    ProjectionsAppend([run.trace[0]], run.trace[1..]);
    assert run.trace == [run.trace[0]] + run.trace[1..];
    ProjectionsSingle(Attempt(0));
  }
}
