/**
  The older revision of the retry primitive (`SimpleRetry/Retry.cs`).

  The same loop as the current revision, with different rules: the type filter is
  consulted before the argument-less `executeOnException` observer, so an exception
  that is rethrown is never observed; the filter's entries are not validated; and
  there is no final observer. Waiting is `Thread.Sleep`, recorded as a `Delay` event.
 */
module LegacyRetry {

  import opened Wrappers
  import opened TypeHierarchy
  import opened RetryTrace

  /** The retry count, whether `executeOnException` is given, and `exceptionTypes` (null is the empty filter). */
  datatype LegacyConfig = LegacyConfig(retryCount: int32, onException: bool, exceptionTypes: seq<TypeId>)

  /** The filter's entries and the types of every exception the work throws are types of the hierarchy. */
  ghost predicate WellFormed<T>(h: Hierarchy, work: nat -> Outcome<T>, cfg: LegacyConfig) {
    && h.Valid()
    && AllIn(h, cfg.exceptionTypes)
    && (forall n: nat :: work(n).Fail? ==> work(n).exn.kind < |h.types|)
  }

  /** The rest of a call from attempt `retry` on, with `exceptions` collected; the loop runs while `retry < bound`. */
  function Loop<T>(h: Hierarchy, work: nat -> Outcome<T>, cfg: LegacyConfig, bound: int, retry: nat, exceptions: seq<Exn>): Run<T>
    requires WellFormed(h, work, cfg)
    decreases bound - retry
  {
    if retry >= bound then
      Run(Aggregated(exceptions), [])
    else match work(retry)
      case Ok(v) => Run(Returned(v), [Attempt(retry)])
      case Fail(e) =>
        if !Handles(h, cfg.exceptionTypes, e) then
          Run(Rethrown(e), [Attempt(retry)])
        else
          Then([Attempt(retry)] + (if cfg.onException then [OnException] else [])
                 + (if retry < cfg.retryCount as int then [Delay] else []),
               Loop(h, work, cfg, bound, retry + 1, exceptions + [e]))
  }

  /** A call as intended: the count check, then at most `retryCount + 1` attempts. */
  function ExecuteSpec<T>(h: Hierarchy, work: nat -> Outcome<T>, cfg: LegacyConfig): Run<T>
    requires WellFormed(h, work, cfg)
  {
    if cfg.retryCount < 0 then Run(ArgError(NegativeRetryCount(cfg.retryCount as int)), [])
    else Loop(h, work, cfg, cfg.retryCount as int + 1, 0, [])
  }

  /** A call as written: the loop bound `retryCount + 1` is computed in unchecked 32-bit arithmetic. */
  function ExecuteSpecAsWritten<T>(h: Hierarchy, work: nat -> Outcome<T>, cfg: LegacyConfig): Run<T>
    requires WellFormed(h, work, cfg)
  {
    if cfg.retryCount < 0 then Run(ArgError(NegativeRetryCount(cfg.retryCount as int)), [])
    else Loop(h, work, cfg, Wrap32(cfg.retryCount as int + 1) as int, 0, [])
  }

  /** Below `int.MaxValue` the wrapped bound is the intended one. */
  lemma AsWrittenAgreesBelowMax<T>(h: Hierarchy, work: nat -> Outcome<T>, cfg: LegacyConfig)
    requires WellFormed(h, work, cfg)
    requires cfg.retryCount < 0x7fff_ffff
    ensures ExecuteSpecAsWritten(h, work, cfg) == ExecuteSpec(h, work, cfg)
  {
  }

  /** The step of `Loop` after an exception the filter handles. */
  lemma LoopHandled<T>(h: Hierarchy, work: nat -> Outcome<T>, cfg: LegacyConfig, bound: int, retry: nat, exceptions: seq<Exn>)
    requires WellFormed(h, work, cfg)
    requires retry < bound && HandledFailure(h, cfg.exceptionTypes, work(retry))
    ensures Loop(h, work, cfg, bound, retry, exceptions) ==
            Then([Attempt(retry)] + (if cfg.onException then [OnException] else [])
                   + (if retry < cfg.retryCount as int then [Delay] else []),
                 Loop(h, work, cfg, bound, retry + 1, exceptions + [work(retry).exn]))
  {
  }

  /** The step of `Loop` after a successful invocation. */
  lemma LoopSucceeds<T>(h: Hierarchy, work: nat -> Outcome<T>, cfg: LegacyConfig, bound: int, retry: nat, exceptions: seq<Exn>)
    requires WellFormed(h, work, cfg)
    requires retry < bound && work(retry).Ok?
    ensures Loop(h, work, cfg, bound, retry, exceptions) == Run(Returned(work(retry).value), [Attempt(retry)])
  {
  }

  /** The step of `Loop` after an exception the filter does not handle: the observer is not called. */
  lemma LoopUnhandled<T>(h: Hierarchy, work: nat -> Outcome<T>, cfg: LegacyConfig, bound: int, retry: nat, exceptions: seq<Exn>)
    requires WellFormed(h, work, cfg)
    requires retry < bound && UnhandledFailure(h, cfg.exceptionTypes, work(retry))
    ensures Loop(h, work, cfg, bound, retry, exceptions) == Run(Rethrown(work(retry).exn), [Attempt(retry)])
  {
  }

  /** The loop invariant is kept across an attempt whose exception the filter handles. */
  lemma AttemptStep<T>(h: Hierarchy, work: nat -> Outcome<T>, cfg: LegacyConfig, bound: int, retry: nat,
                       before: seq<Event>, collected: seq<Exn>, trace: seq<Event>)
    requires WellFormed(h, work, cfg)
    requires retry < bound && HandledFailure(h, cfg.exceptionTypes, work(retry))
    requires trace == before + [Attempt(retry)] + (if cfg.onException then [OnException] else [])
                       + (if retry < cfg.retryCount as int then [Delay] else [])
    ensures Then(before, Loop(h, work, cfg, bound, retry, collected)) ==
            Then(trace, Loop(h, work, cfg, bound, retry + 1, collected + [work(retry).exn]))
  {
    var step := [Attempt(retry)] + (if cfg.onException then [OnException] else [])
                  + (if retry < cfg.retryCount as int then [Delay] else []);
    assert trace == before + step;
    LoopHandled(h, work, cfg, bound, retry, collected);
    ThenThen(before, step, Loop(h, work, cfg, bound, retry + 1, collected + [work(retry).exn]));
  }

  /** The extension `IsOfTypeOrInherits`: the walk up the base chain from the exception's runtime type. */
  method IsOfTypeOrInherits(h: Hierarchy, obj: Exn, t: TypeId) returns (r: bool)
    requires h.Valid() && h.Has(obj.kind)
    ensures r == Inherits(h, obj.kind, t)
    ensures r <==> t in BaseChain(h, obj.kind)
  {
    InheritsIffOnChain(h, obj.kind, t);
    var objectType := obj.kind;
    while true
      invariant h.Has(objectType)
      invariant Inherits(h, objectType, t) == Inherits(h, obj.kind, t)
      decreases objectType
    {
      if objectType == t {
        return true;
      }
      if h.types[objectType].base == Some(objectType) || h.types[objectType].base.None? {
        return false;
      }
      objectType := h.types[objectType].base.value;
    }
  }

  /**
    `Execute<T>` of the older revision, with the loop bound as an unchecked 32-bit sum:
    it meets `ExecuteSpecAsWritten`, and below `int.MaxValue` the intended `ExecuteSpec`.
   */
  method Execute<T>(h: Hierarchy, work: nat -> Outcome<T>, cfg: LegacyConfig) returns (r: Result<T>, trace: seq<Event>)
    requires WellFormed(h, work, cfg)
    ensures Run(r, trace) == ExecuteSpecAsWritten(h, work, cfg)
  {
    if cfg.retryCount < 0 {
      return ArgError(NegativeRetryCount(cfg.retryCount as int)), [];
    }
    ghost var spec := ExecuteSpecAsWritten(h, work, cfg);
    var bound: int := Wrap32(cfg.retryCount as int + 1) as int;
    var exceptions: seq<Exn> := [];
    trace := [];
    var retry: nat := 0;
    while retry < bound
      invariant spec == Then(trace, Loop(h, work, cfg, bound, retry, exceptions))
      decreases bound - retry
    {
      ghost var before, collected := trace, exceptions;
      trace := trace + [Attempt(retry)];
      match work(retry)
      case Ok(v) =>
        LoopSucceeds(h, work, cfg, bound, retry, collected);
        return Returned(v), trace;
      case Fail(ex) =>
        if |cfg.exceptionTypes| > 0 && !Handles(h, cfg.exceptionTypes, ex) {
          LoopUnhandled(h, work, cfg, bound, retry, collected);
          return Rethrown(ex), trace;
        }
        if cfg.onException {
          trace := trace + [OnException];
        }
        exceptions := exceptions + [ex];
        if retry < cfg.retryCount as int {
          trace := trace + [Delay];
        }
        AttemptStep(h, work, cfg, bound, retry, before, collected, trace);
        retry := retry + 1;
    }
    assert Loop(h, work, cfg, bound, retry, exceptions) == Run(Aggregated(exceptions), []);
    r := Aggregated(exceptions);
  }

  /** `Execute(Action)` of the older revision: the work returns no value; it runs through `Execute<T>`. */
  method ExecuteAction(h: Hierarchy, work: nat -> Outcome<()>, cfg: LegacyConfig) returns (r: Result<()>, trace: seq<Event>)
    requires WellFormed(h, work, cfg)
    ensures Run(r, trace) == ExecuteSpecAsWritten(h, work, cfg)
    ensures cfg.retryCount < 0x7fff_ffff ==> Run(r, trace) == ExecuteSpec(h, work, cfg)
  {
    r, trace := Execute(h, work, cfg);
    if cfg.retryCount < 0x7fff_ffff {
      AsWrittenAgreesBelowMax(h, work, cfg);
    }
  }
}
