/**
  The two revisions side by side. Given the same retry count and the same type
  filter, they end alike (the same value, the same rethrown exception or the same
  aggregate) after the same invocations and the same waits; they differ only in
  their observers and in the current revision's check that the filter holds
  exception types only.
 */
module RetryVersions {

  import opened TypeHierarchy
  import opened RetryTrace
  import Retry
  import LegacyRetry
  import RetryProperties
  import LegacyRetryProperties

  /** The current revision's arguments and the older revision's ones agree on the count and the filter. */
  predicate SameLoop(cfg: Retry.Config, legacy: LegacyRetry.LegacyConfig) {
    cfg.retryCount == legacy.retryCount && cfg.typesToHandle == legacy.exceptionTypes
  }

  lemma {:induction false} LoopsAgree<T>(h: Hierarchy, work: nat -> Outcome<T>, cfg: Retry.Config, legacy: LegacyRetry.LegacyConfig,
                                        bound: int, retry: nat, exceptions: seq<Exn>)
    requires Retry.WellFormed(h, work, cfg) && LegacyRetry.WellFormed(h, work, legacy)
    requires SameLoop(cfg, legacy)
    ensures var now := Retry.Loop(h, work, cfg, bound, retry, exceptions);
            var before := LegacyRetry.Loop(h, work, legacy, bound, retry, exceptions);
            && now.result == before.result
            && Attempts(now.trace) == Attempts(before.trace)
            && Delays(now.trace) == Delays(before.trace)
    decreases bound - retry
  {
    if retry >= bound {
      RetryProperties.EndsProjections(h, work, cfg, bound, retry, exceptions);
      assert LegacyRetry.Loop(h, work, legacy, bound, retry, exceptions).trace == [];
    } else if work(retry).Ok? {
      RetryProperties.SucceedsProjections(h, work, cfg, bound, retry, exceptions);
      LegacyRetryProperties.LastAttemptProjections(h, work, legacy, bound, retry, exceptions);
    } else if Handles(h, cfg.typesToHandle, work(retry).exn) {
      RetryProperties.HandledProjections(h, work, cfg, bound, retry, exceptions);
      LegacyRetryProperties.HandledProjections(h, work, legacy, bound, retry, exceptions);
      LoopsAgree(h, work, cfg, legacy, bound, retry + 1, exceptions + [work(retry).exn]);
    } else {
      RetryProperties.UnhandledProjections(h, work, cfg, bound, retry, exceptions);
      LegacyRetryProperties.LastAttemptProjections(h, work, legacy, bound, retry, exceptions);
    }
  }

  /**
    With the same count and filter, a call of either revision ends alike after
    the same invocations and the same waits, unless the filter names a type that
    is not an exception type: the current revision then rejects the call before
    any attempt, while the older one runs it.
   */
  lemma RevisionsAgree<T>(h: Hierarchy, work: nat -> Outcome<T>, cfg: Retry.Config, legacy: LegacyRetry.LegacyConfig)
    requires Retry.WellFormed(h, work, cfg) && LegacyRetry.WellFormed(h, work, legacy)
    requires SameLoop(cfg, legacy)
    ensures var now := Retry.ExecuteSpec(h, work, cfg);
            var before := LegacyRetry.ExecuteSpec(h, work, legacy);
            && (cfg.retryCount < 0 || Retry.ValidArguments(h, cfg) ==>
                  && now.result == before.result
                  && Attempts(now.trace) == Attempts(before.trace)
                  && Delays(now.trace) == Delays(before.trace))
            && (cfg.retryCount >= 0 && !Retry.ValidArguments(h, cfg) ==>
                  now.result.ArgError? && now.trace == [] && !before.result.ArgError?)
  {
    if cfg.retryCount >= 0 {
      LoopsAgree(h, work, cfg, legacy, cfg.retryCount as int + 1, 0, []);
      if !Retry.ValidArguments(h, cfg) {
        Retry.NotExceptionsMembers(h, cfg.typesToHandle);
      }
      LegacyRetryProperties.LoopNeverRejects(h, work, legacy, cfg.retryCount as int + 1, 0, []);
    }
  }
}
