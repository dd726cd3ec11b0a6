/**
  The current revision of the retry primitive (`Retry.Execute`, `Retry.ExecuteAsync`).

  A call validates its arguments, then invokes the unit of work up to
  `retryCount + 1` times. After a failed invocation it calls the every-exception
  observer, rethrows the exception at once when a non-empty type filter does not
  match it, and otherwise collects it and waits, unless that was the last allowed
  attempt. When every attempt has failed it calls the final observer with the
  aggregate of the collected exceptions and throws that aggregate.

  `ExecuteSpec` states what a call does, as a recursion over the attempts; the
  methods are the loops of the source, proved to agree with it. The wrap-around
  of `retryCount + 1` at `int.MaxValue` is modelled apart, in `ExecuteSpecAsWritten`.
 */
module Retry {

  import opened Wrappers
  import opened TypeHierarchy
  import opened RetryTrace

  /**
    The arguments of a call besides the work and the interval: the retry count,
    whether `executeOnEveryException` and `executeBeforeFinalException` are given
    (not null), and `exceptionTypesToHandle` (null is the empty filter).
   */
  datatype Config = Config(retryCount: int32, onEvery: bool, beforeFinal: bool, typesToHandle: seq<TypeId>)

  /** The filter's entries and the types of every exception the work throws are types of the hierarchy. */
  ghost predicate WellFormed<T>(h: Hierarchy, work: nat -> Outcome<T>, cfg: Config) {
    && h.Valid()
    && AllIn(h, cfg.typesToHandle)
    && (forall n: nat :: work(n).Fail? ==> work(n).exn.kind < |h.types|)
  }

  // ----- Parameter validation -----

  function ValidateRetryCountParameter(retryCount: int32): (r: Option<ArgumentError>)
    ensures r.None? <==> retryCount >= 0
    ensures r.Some? ==> r.value.NegativeRetryCount? && r.value.given == retryCount as int
  {
    if retryCount < 0 then Some(NegativeRetryCount(retryCount as int)) else None
  }

  /** The entries of the filter that are not exception types, in filter order. */
  function NotExceptions(h: Hierarchy, types: seq<TypeId>): (r: seq<TypeId>)
    requires h.Valid() && AllIn(h, types)
    ensures AllIn(h, r) && |r| <= |types|
  {
    if |types| == 0 then []
    else (if IsException(h, types[0]) then [] else [types[0]]) + NotExceptions(h, types[1..])
  }

  /** The short names of the given types, in order. */
  function Names(h: Hierarchy, types: seq<TypeId>): (names: seq<string>)
    requires AllIn(h, types)
    ensures |names| == |types|
    ensures forall i | 0 <= i < |types| :: names[i] == h.types[types[i]].name
  {
    if |types| == 0 then [] else [h.types[types[0]].name] + Names(h, types[1..])
  }

  function ValidateTypeParameter(h: Hierarchy, types: seq<TypeId>): (r: Option<ArgumentError>)
    requires h.Valid() && AllIn(h, types)
    ensures r.None? <==> forall i | 0 <= i < |types| :: IsException(h, types[i])
    ensures r.Some? ==> r.value.NotExceptionTypes? && r.value.count == |r.value.names| > 0
    ensures r.Some? ==> forall i | 0 <= i < |types| && !IsException(h, types[i]) ::
                          h.types[types[i]].name in r.value.names
  {
    if |types| > 0 then
      var notExceptions := NotExceptions(h, types);
      NotExceptionsMembers(h, types);
      if |notExceptions| > 0 then
        Some(NotExceptionTypes(|notExceptions|, Names(h, notExceptions)))
      else
        None
    else
      None
  }

  /** The offending entries are exactly the filter entries that are not exception types. */
  lemma {:induction false} NotExceptionsMembers(h: Hierarchy, types: seq<TypeId>)
    requires h.Valid() && AllIn(h, types)
    ensures forall t :: t in NotExceptions(h, types) <==> t in types && h.Has(t) && !IsException(h, t)
    ensures |NotExceptions(h, types)| == 0 <==> forall i | 0 <= i < |types| :: IsException(h, types[i])
  {
    if |types| > 0 {
      NotExceptionsMembers(h, types[1..]);
      assert types == [types[0]] + types[1..];
      forall i | 0 <= i < |types| && i > 0 ensures types[i] == types[1..][i - 1] {}
    }
  }

  /** Collecting the offenders commutes with splitting the filter, so their order is the filter's. */
  lemma {:induction false} NotExceptionsAppend(h: Hierarchy, a: seq<TypeId>, b: seq<TypeId>)
    requires h.Valid()
    requires AllIn(h, a)
    requires AllIn(h, b)
    ensures AllIn(h, a + b)
    ensures NotExceptions(h, a + b) == NotExceptions(h, a) + NotExceptions(h, b)
    decreases |a|
  {
    assert AllIn(h, a + b) by {
      forall i | 0 <= i < |a + b| ensures (a + b)[i] < |h.types| {
        if i < |a| { assert (a + b)[i] == a[i]; } else { assert (a + b)[i] == b[i - |a|]; }
      }
    }
    if |a| == 0 {
      assert a + b == b;
    } else {
      assert (a + b)[0] == a[0];
      assert (a + b)[1..] == a[1..] + b;
      NotExceptionsAppend(h, a[1..], b);
    }
  }

  /** The retry count is checked first, then the filter. */
  function ValidateParameters(h: Hierarchy, retryCount: int32, types: seq<TypeId>): (r: Option<ArgumentError>)
    requires h.Valid() && AllIn(h, types)
    ensures retryCount < 0 ==> r == Some(NegativeRetryCount(retryCount as int))
    ensures retryCount >= 0 ==> r == ValidateTypeParameter(h, types)
  {
    match ValidateRetryCountParameter(retryCount)
    case Some(e) => Some(e)
    case None => ValidateTypeParameter(h, types)
  }

  /** Arguments that pass validation: a non-negative count and a filter of exception types only. */
  predicate ValidArguments(h: Hierarchy, cfg: Config)
    requires h.Valid() && AllIn(h, cfg.typesToHandle)
  {
    cfg.retryCount >= 0 && forall i | 0 <= i < |cfg.typesToHandle| :: IsException(h, cfg.typesToHandle[i])
  }

  // ----- The retry loop -----

  /**
    The rest of a call from attempt `retry` on, with `exceptions` collected so far;
    the loop runs while `retry < bound`.
   */
  function Loop<T>(h: Hierarchy, work: nat -> Outcome<T>, cfg: Config, bound: int, retry: nat, exceptions: seq<Exn>): Run<T>
    requires WellFormed(h, work, cfg)
    decreases bound - retry
  {
    if retry >= bound then
      Run(Aggregated(exceptions), if cfg.beforeFinal then [OnFinal(exceptions)] else [])
    else match work(retry)
      case Ok(v) => Run(Returned(v), [Attempt(retry)])
      case Fail(e) =>
        var attempt := [Attempt(retry)] + (if cfg.onEvery then [OnEvery(e)] else []);
        if !Handles(h, cfg.typesToHandle, e) then
          Run(Rethrown(e), attempt)
        else
          Then(attempt + (if retry < cfg.retryCount as int then [Delay] else []),
               Loop(h, work, cfg, bound, retry + 1, exceptions + [e]))
  }

  /** The step of `Loop` after an exception the filter handles. */
  lemma LoopHandled<T>(h: Hierarchy, work: nat -> Outcome<T>, cfg: Config, bound: int, retry: nat, exceptions: seq<Exn>)
    requires WellFormed(h, work, cfg)
    requires retry < bound && HandledFailure(h, cfg.typesToHandle, work(retry))
    ensures Loop(h, work, cfg, bound, retry, exceptions) ==
            Then([Attempt(retry)] + (if cfg.onEvery then [OnEvery(work(retry).exn)] else [])
                   + (if retry < cfg.retryCount as int then [Delay] else []),
                 Loop(h, work, cfg, bound, retry + 1, exceptions + [work(retry).exn]))
  {
  }

  /** `Loop` once the attempts are used up: the final observer, then the aggregate. */
  lemma LoopEnds<T>(h: Hierarchy, work: nat -> Outcome<T>, cfg: Config, bound: int, retry: nat, exceptions: seq<Exn>)
    requires WellFormed(h, work, cfg)
    requires retry >= bound
    ensures Loop(h, work, cfg, bound, retry, exceptions) ==
            Run(Aggregated(exceptions), if cfg.beforeFinal then [OnFinal(exceptions)] else [])
  {
  }

  /** The step of `Loop` after a successful invocation. */
  lemma LoopSucceeds<T>(h: Hierarchy, work: nat -> Outcome<T>, cfg: Config, bound: int, retry: nat, exceptions: seq<Exn>)
    requires WellFormed(h, work, cfg)
    requires retry < bound && work(retry).Ok?
    ensures Loop(h, work, cfg, bound, retry, exceptions) == Run(Returned(work(retry).value), [Attempt(retry)])
  {
  }

  /** The step of `Loop` after an exception the filter does not handle. */
  lemma LoopUnhandled<T>(h: Hierarchy, work: nat -> Outcome<T>, cfg: Config, bound: int, retry: nat, exceptions: seq<Exn>)
    requires WellFormed(h, work, cfg)
    requires retry < bound && UnhandledFailure(h, cfg.typesToHandle, work(retry))
    ensures Loop(h, work, cfg, bound, retry, exceptions) ==
            Run(Rethrown(work(retry).exn), [Attempt(retry)] + (if cfg.onEvery then [OnEvery(work(retry).exn)] else []))
  {
  }

  /** The loop invariant is kept across an attempt whose exception the filter handles. */
  lemma AttemptStep<T>(h: Hierarchy, work: nat -> Outcome<T>, cfg: Config, bound: int, retry: nat,
                       before: seq<Event>, collected: seq<Exn>, trace: seq<Event>)
    requires WellFormed(h, work, cfg)
    requires retry < bound && HandledFailure(h, cfg.typesToHandle, work(retry))
    requires trace == before + [Attempt(retry)] + (if cfg.onEvery then [OnEvery(work(retry).exn)] else [])
                       + (if retry < cfg.retryCount as int then [Delay] else [])
    ensures Then(before, Loop(h, work, cfg, bound, retry, collected)) ==
            Then(trace, Loop(h, work, cfg, bound, retry + 1, collected + [work(retry).exn]))
  {
    var step := [Attempt(retry)] + (if cfg.onEvery then [OnEvery(work(retry).exn)] else [])
                  + (if retry < cfg.retryCount as int then [Delay] else []);
    assert trace == before + step;
    LoopHandled(h, work, cfg, bound, retry, collected);
    ThenThen(before, step, Loop(h, work, cfg, bound, retry + 1, collected + [work(retry).exn]));
  }

  /** A call as intended: validation, then at most `retryCount + 1` attempts. */
  function ExecuteSpec<T>(h: Hierarchy, work: nat -> Outcome<T>, cfg: Config): Run<T>
    requires WellFormed(h, work, cfg)
  {
    match ValidateParameters(h, cfg.retryCount, cfg.typesToHandle)
    case Some(err) => Run(ArgError(err), [])
    case None => Loop(h, work, cfg, cfg.retryCount as int + 1, 0, [])
  }

  /** A call as written: the loop bound `retryCount + 1` is computed in unchecked 32-bit arithmetic. */
  function ExecuteSpecAsWritten<T>(h: Hierarchy, work: nat -> Outcome<T>, cfg: Config): Run<T>
    requires WellFormed(h, work, cfg)
  {
    match ValidateParameters(h, cfg.retryCount, cfg.typesToHandle)
    case Some(err) => Run(ArgError(err), [])
    case None => Loop(h, work, cfg, Wrap32(cfg.retryCount as int + 1) as int, 0, [])
  }

  /** Below `int.MaxValue` the wrapped bound is the intended one. */
  lemma AsWrittenAgreesBelowMax<T>(h: Hierarchy, work: nat -> Outcome<T>, cfg: Config)
    requires WellFormed(h, work, cfg)
    requires cfg.retryCount < 0x7fff_ffff
    ensures ExecuteSpecAsWritten(h, work, cfg) == ExecuteSpec(h, work, cfg)
  {
  }

  // ----- The source's methods -----

  /** The base-chain walk of `IsOfTypeOrInHerits(Type, Type)`. */
  method IsOfTypeOrInHerits(h: Hierarchy, source: TypeId, target: TypeId) returns (r: bool)
    requires h.Valid() && h.Has(source)
    ensures r == Inherits(h, source, target)
    ensures r <==> target in BaseChain(h, source)
  {
    InheritsIffOnChain(h, source, target);
    var s := source;
    while true
      invariant h.Has(s)
      invariant Inherits(h, s, target) == Inherits(h, source, target)
      decreases s
    {
      if s == target {
        return true;
      }
      var baseType := h.types[s].base;
      if baseType == Some(s) || baseType.None? {
        return false;
      }
      s := baseType.value;
    }
  }

  /** The extension `ex.IsOfTypeOrInherits(type)`: the walk from the exception's runtime type. */
  method IsOfTypeOrInherits(h: Hierarchy, obj: Exn, t: TypeId) returns (r: bool)
    requires h.Valid() && h.Has(obj.kind)
    ensures r == Inherits(h, obj.kind, t)
  {
    r := IsOfTypeOrInHerits(h, obj.kind, t);
  }

  /**
    `Execute<T>`: the synchronous retry loop. Its bound `retryCount + 1` is the source's
    unchecked 32-bit sum, so the method meets `ExecuteSpecAsWritten`; below `int.MaxValue`
    that is the intended `ExecuteSpec`.
   */
  method Execute<T>(h: Hierarchy, work: nat -> Outcome<T>, cfg: Config) returns (r: Result<T>, trace: seq<Event>)
    requires WellFormed(h, work, cfg)
    ensures Run(r, trace) == ExecuteSpecAsWritten(h, work, cfg)
  {
    var invalid := ValidateParameters(h, cfg.retryCount, cfg.typesToHandle);
    if invalid.Some? {
      return ArgError(invalid.value), [];
    }
    ghost var spec := ExecuteSpecAsWritten(h, work, cfg);
    var bound: int := Wrap32(cfg.retryCount as int + 1) as int;
    var exceptions: seq<Exn> := [];
    trace := [];
    var retry: nat := 0;
    while retry < bound
      invariant spec == Then(trace, Loop(h, work, cfg, bound, retry, exceptions))
      decreases bound - retry
    {
      ghost var before, collected := trace, exceptions;
      trace := trace + [Attempt(retry)];
      match work(retry)
      case Ok(v) =>
        LoopSucceeds(h, work, cfg, bound, retry, collected);
        return Returned(v), trace;
      case Fail(ex) =>
        if cfg.onEvery {
          trace := trace + [OnEvery(ex)];
        }
        if |cfg.typesToHandle| > 0 && !Handles(h, cfg.typesToHandle, ex) {
          LoopUnhandled(h, work, cfg, bound, retry, collected);
          return Rethrown(ex), trace;
        }
        exceptions := exceptions + [ex];
        if retry < cfg.retryCount as int {
          trace := trace + [Delay];
        }
        AttemptStep(h, work, cfg, bound, retry, before, collected, trace);
        retry := retry + 1;
    }
    LoopEnds(h, work, cfg, bound, retry, exceptions);
    if cfg.beforeFinal {
      trace := trace + [OnFinal(exceptions)];
    }
    r := Aggregated(exceptions);
  }

  /** `Execute(Action)`: the work returns no value; it runs through `Execute<T>`. */
  method ExecuteAction(h: Hierarchy, work: nat -> Outcome<()>, cfg: Config) returns (r: Result<()>, trace: seq<Event>)
    requires WellFormed(h, work, cfg)
    ensures Run(r, trace) == ExecuteSpecAsWritten(h, work, cfg)
    ensures cfg.retryCount < 0x7fff_ffff ==> Run(r, trace) == ExecuteSpec(h, work, cfg)
  {
    r, trace := Execute(h, work, cfg);
    if cfg.retryCount < 0x7fff_ffff {
      AsWrittenAgreesBelowMax(h, work, cfg);
    }
  }

  /**
    `ExecuteAsync<T>`: the awaiting variant. Awaiting the work and the observer,
    and waiting without blocking, leave the order of events unchanged, so it meets
    the same specification as `Execute<T>`.
   */
  method ExecuteAsync<T>(h: Hierarchy, work: nat -> Outcome<T>, cfg: Config) returns (r: Result<T>, trace: seq<Event>)
    requires WellFormed(h, work, cfg)
    ensures Run(r, trace) == ExecuteSpecAsWritten(h, work, cfg)
  {
    var invalid := ValidateParameters(h, cfg.retryCount, cfg.typesToHandle);
    if invalid.Some? {
      return ArgError(invalid.value), [];
    }
    ghost var spec := ExecuteSpecAsWritten(h, work, cfg);
    var bound: int := Wrap32(cfg.retryCount as int + 1) as int;
    var exceptions: seq<Exn> := [];
    trace := [];
    var retry: nat := 0;
    while retry < bound
      invariant spec == Then(trace, Loop(h, work, cfg, bound, retry, exceptions))
      decreases bound - retry
    {
      ghost var before, collected := trace, exceptions;
      trace := trace + [Attempt(retry)];
      var awaited := work(retry);
      match awaited
      case Ok(v) =>
        LoopSucceeds(h, work, cfg, bound, retry, collected);
        return Returned(v), trace;
      case Fail(ex) =>
        if cfg.onEvery {
          trace := trace + [OnEvery(ex)];
        }
        if |cfg.typesToHandle| > 0 && !Handles(h, cfg.typesToHandle, ex) {
          LoopUnhandled(h, work, cfg, bound, retry, collected);
          return Rethrown(ex), trace;
        }
        exceptions := exceptions + [ex];
        if retry < cfg.retryCount as int {
          trace := trace + [Delay];
        }
        AttemptStep(h, work, cfg, bound, retry, before, collected, trace);
        retry := retry + 1;
    }
    LoopEnds(h, work, cfg, bound, retry, exceptions);
    // the final observer is invoked; its task is not awaited
    if cfg.beforeFinal {
      trace := trace + [OnFinal(exceptions)];
    }
    r := Aggregated(exceptions);
  }
}
