/**
  What both revisions of the retry loop share: exceptions and the outcomes of the
  unit of work, the results a call can end in, the trace of observable events a
  call produces, and the type filter that decides which exceptions are retried.

  The unit of work is a total function from the attempt number to the outcome of
  that invocation, which makes the environment's answers explicit. Waiting and the
  observer callbacks are recorded as events; their clocks and their own effects
  are not modelled.
 */
module RetryTrace {

  import opened Wrappers
  import opened TypeHierarchy

  /** The C# `int` type of the retry count. */
  newtype int32 = x: int | -0x8000_0000 <= x < 0x8000_0000

  /** Unchecked C# `int` arithmetic: the mathematical value reduced into the 32-bit range. */
  function Wrap32(x: int): (r: int32)
    ensures -0x8000_0000 <= x < 0x8000_0000 ==> r as int == x
    ensures (r as int - x) % 0x1_0000_0000 == 0
  {
    ((x + 0x8000_0000) % 0x1_0000_0000 - 0x8000_0000) as int32
  }

  /** An exception object: its runtime type and an identity that tells instances apart. */
  datatype Exn = Exn(kind: TypeId, id: nat)

  /** What one invocation of the unit of work does: return a value or throw. */
  datatype Outcome<+T> = Ok(value: T) | Fail(exn: Exn)

  /** The payload of the argument exceptions the validation throws. */
  datatype ArgumentError =
    | NegativeRetryCount(given: int)
    | NotExceptionTypes(count: nat, names: seq<string>)

  /** How a call ends: the work's value, an exception rethrown as is, an `AggregateException`, or a rejected argument. */
  datatype Result<+T> =
    | Returned(value: T)
    | Rethrown(exn: Exn)
    | Aggregated(inner: seq<Exn>)
    | ArgError(error: ArgumentError)

  /**
    Observable events: an invocation of the unit of work (with its attempt number),
    the every-exception observer of the current revision (with its argument), the
    argument-less observer of the older revision, a wait between attempts, and the
    observer called before the final exception (with the list it aggregates).
   */
  datatype Event =
    | Attempt(index: nat)
    | OnEvery(exn: Exn)
    | OnException
    | Delay
    | OnFinal(inner: seq<Exn>)

  /** A finished call: its result and the events it produced, in order. */
  datatype Run<+T> = Run(result: Result<T>, trace: seq<Event>)

  /** `run` preceded by the events `prefix`. */
  function Then<T>(prefix: seq<Event>, run: Run<T>): (r: Run<T>)
    ensures r.result == run.result && |r.trace| == |prefix| + |run.trace|
  {
    Run(run.result, prefix + run.trace)
  }

  lemma ThenThen<T>(a: seq<Event>, b: seq<Event>, run: Run<T>)
    ensures Then(a, Then(b, run)) == Then(a + b, run)
  {
    assert a + (b + run.trace) == (a + b) + run.trace;
  }

  /** `types.Any(type => ex.IsOfTypeOrInherits(type))`: some entry is the type `kind` or one of its ancestors. */
  predicate AnyMatches(h: Hierarchy, types: seq<TypeId>, kind: TypeId)
    requires h.Valid() && h.Has(kind)
  {
    |types| > 0 && (Inherits(h, kind, types[0]) || AnyMatches(h, types[1..], kind))
  }

  /** The search answers yes exactly when some entry matches. */
  lemma {:induction false} AnyMatchesIff(h: Hierarchy, types: seq<TypeId>, kind: TypeId)
    requires h.Valid() && h.Has(kind)
    ensures AnyMatches(h, types, kind) <==> exists i | 0 <= i < |types| :: Inherits(h, kind, types[i])
  {
    if |types| > 0 {
      AnyMatchesIff(h, types[1..], kind);
      if exists i | 0 <= i < |types| :: Inherits(h, kind, types[i]) {
        var i :| 0 <= i < |types| && Inherits(h, kind, types[i]);
        if i > 0 {
          assert types[1..][i - 1] == types[i];
        }
      }
      if exists i | 0 <= i < |types[1..]| :: Inherits(h, kind, types[1..][i]) {
        var i :| 0 <= i < |types[1..]| && Inherits(h, kind, types[1..][i]);
        assert types[i + 1] == types[1..][i];
      }
    }
  }

  /**
    True iff the exception is retried: the filter is empty (null or no entries,
    which handles everything), or the exception's type is, or inherits from, one of
    its entries.
   */
  predicate Handles(h: Hierarchy, typesToHandle: seq<TypeId>, e: Exn)
    requires h.Valid() && h.Has(e.kind)
  {
    |typesToHandle| == 0 || AnyMatches(h, typesToHandle, e.kind)
  }

  /** Handling, stated over the base chain: the exception's chain meets the filter. */
  lemma HandlesIffChainMeetsFilter(h: Hierarchy, typesToHandle: seq<TypeId>, e: Exn)
    requires h.Valid() && h.Has(e.kind)
    ensures Handles(h, typesToHandle, e) <==>
            |typesToHandle| == 0 || exists t :: t in typesToHandle && t in BaseChain(h, e.kind)
  {
    AnyMatchesIff(h, typesToHandle, e.kind);
    forall i | 0 <= i < |typesToHandle| {
      InheritsIffOnChain(h, e.kind, typesToHandle[i]);
    }
    if exists t :: t in typesToHandle && t in BaseChain(h, e.kind) {
      var t :| t in typesToHandle && t in BaseChain(h, e.kind);
      var i :| 0 <= i < |typesToHandle| && typesToHandle[i] == t;
      assert Inherits(h, e.kind, typesToHandle[i]);
    }
  }

  /** A filter entry that is an ancestor of an exception's type handles that exception. */
  lemma HandlesSubKinds(h: Hierarchy, typesToHandle: seq<TypeId>, e: Exn, ancestor: TypeId, t: TypeId)
    requires h.Valid() && h.Has(e.kind) && h.Has(ancestor)
    requires Inherits(h, e.kind, ancestor) && t in typesToHandle && Inherits(h, ancestor, t)
    ensures Handles(h, typesToHandle, e)
  {
    InheritsTransitive(h, e.kind, ancestor, t);
    AnyMatchesIff(h, typesToHandle, e.kind);
    var i :| 0 <= i < |typesToHandle| && typesToHandle[i] == t;
  }

  /** The outcome is an exception that the filter handles. */
  predicate HandledFailure<T>(h: Hierarchy, typesToHandle: seq<TypeId>, o: Outcome<T>) {
    o.Fail? && h.Valid() && h.Has(o.exn.kind) && Handles(h, typesToHandle, o.exn)
  }

  /** The outcome is an exception that the filter does not handle. */
  predicate UnhandledFailure<T>(h: Hierarchy, typesToHandle: seq<TypeId>, o: Outcome<T>) {
    o.Fail? && h.Valid() && h.Has(o.exn.kind) && !Handles(h, typesToHandle, o.exn)
  }

  /** The numbers lo, lo + 1, ..., hi - 1. */
  function Range(lo: nat, hi: nat): (r: seq<nat>)
    ensures |r| == if lo <= hi then hi - lo else 0
    decreases hi - lo
  {
    if lo >= hi then [] else [lo] + Range(lo + 1, hi)
  }

  /** The i-th number of `Range(lo, hi)` is lo + i. */
  lemma {:induction false} RangeElements(lo: nat, hi: nat)
    ensures forall i | 0 <= i < |Range(lo, hi)| :: Range(lo, hi)[i] == lo + i
    decreases hi - lo
  {
    if lo < hi {
      RangeElements(lo + 1, hi);
      assert forall i | 0 < i < |Range(lo, hi)| :: Range(lo, hi)[i] == Range(lo + 1, hi)[i - 1];
    }
  }

  /** The exceptions thrown by invocations lo, ..., hi - 1, in attempt order. */
  function Failures<T>(work: nat -> Outcome<T>, lo: nat, hi: nat): seq<Exn>
    decreases hi - lo
  {
    if lo >= hi then []
    else (if work(lo).Fail? then [work(lo).exn] else []) + Failures(work, lo + 1, hi)
  }

  /** When every invocation in lo..hi-1 throws, those are exactly the exceptions collected, one per attempt. */
  lemma {:induction false} FailuresAt<T>(work: nat -> Outcome<T>, lo: nat, hi: nat)
    requires lo <= hi
    requires forall j | lo <= j < hi :: work(j).Fail?
    ensures |Failures(work, lo, hi)| == hi - lo
    ensures forall i | 0 <= i < hi - lo :: Failures(work, lo, hi)[i] == work(lo + i).exn
    decreases hi - lo
  {
    if lo < hi {
      FailuresAt(work, lo + 1, hi);
    }
  }

  /** One more attempt at the end of the range. */
  lemma {:induction false} FailuresSnoc<T>(work: nat -> Outcome<T>, lo: nat, hi: nat)
    requires lo <= hi && work(hi).Fail?
    ensures Failures(work, lo, hi + 1) == Failures(work, lo, hi) + [work(hi).exn]
    decreases hi - lo
  {
    if lo < hi {
      FailuresSnoc(work, lo + 1, hi);
    }
  }

  // ----- Projections of a trace -----

  /** The concatenation of f over the events of t. */
  function Project<U>(t: seq<Event>, f: Event -> seq<U>): seq<U>
    decreases |t|
  {
    if |t| == 0 then [] else f(t[0]) + Project(t[1..], f)
  }

  lemma {:induction false} ProjectAppend<U>(a: seq<Event>, b: seq<Event>, f: Event -> seq<U>)
    ensures Project(a + b, f) == Project(a, f) + Project(b, f)
    decreases |a|
  {
    if |a| > 0 {
      assert (a + b)[0] == a[0];
      assert (a + b)[1..] == a[1..] + b;
      ProjectAppend(a[1..], b, f);
      assert Project(a + b, f) == f(a[0]) + Project(a[1..] + b, f);
    } else {
      assert a + b == b;
    }
  }

  lemma ProjectSingle<U>(e: Event, f: Event -> seq<U>)
    ensures Project([e], f) == f(e)
  {
    assert [e][1..] == [];
    assert Project([e][1..], f) == [];
  }

  function AttemptIndex(e: Event): seq<nat> {
    if e.Attempt? then [e.index] else []
  }

  function ObservedExn(e: Event): seq<Exn> {
    if e.OnEvery? then [e.exn] else []
  }

  function NotifyMark(e: Event): seq<bool> {
    if e.OnException? then [true] else []
  }

  function DelayMark(e: Event): seq<bool> {
    if e.Delay? then [true] else []
  }

  function FinalArg(e: Event): seq<seq<Exn>> {
    if e.OnFinal? then [e.inner] else []
  }

  /** The attempt numbers of the invocations of the unit of work, in order. */
  function Attempts(t: seq<Event>): seq<nat> {
    Project(t, AttemptIndex)
  }

  /** The arguments the every-exception observer was called with, in order. */
  function Observed(t: seq<Event>): seq<Exn> {
    Project(t, ObservedExn)
  }

  /** How often the argument-less exception observer was called. */
  function Notifications(t: seq<Event>): nat {
    |Project(t, NotifyMark)|
  }

  /** How often the call waited. */
  function Delays(t: seq<Event>): nat {
    |Project(t, DelayMark)|
  }

  /** The arguments the final observer was called with, in order. */
  function Finals(t: seq<Event>): seq<seq<Exn>> {
    Project(t, FinalArg)
  }

  /** All projections distribute over the concatenation of traces. */
  lemma ProjectionsAppend(a: seq<Event>, b: seq<Event>)
    ensures Attempts(a + b) == Attempts(a) + Attempts(b)
    ensures Observed(a + b) == Observed(a) + Observed(b)
    ensures Notifications(a + b) == Notifications(a) + Notifications(b)
    ensures Delays(a + b) == Delays(a) + Delays(b)
    ensures Finals(a + b) == Finals(a) + Finals(b)
  {
    ProjectAppend(a, b, AttemptIndex);
    ProjectAppend(a, b, ObservedExn);
    ProjectAppend(a, b, NotifyMark);
    ProjectAppend(a, b, DelayMark);
    ProjectAppend(a, b, FinalArg);
  }

  /** The projections of a trace of one event. */
  lemma ProjectionsSingle(e: Event)
    ensures Attempts([e]) == AttemptIndex(e)
    ensures Observed([e]) == ObservedExn(e)
    ensures Notifications([e]) == |NotifyMark(e)|
    ensures Delays([e]) == |DelayMark(e)|
    ensures Finals([e]) == FinalArg(e)
  {
    ProjectSingle(e, AttemptIndex);
    ProjectSingle(e, ObservedExn);
    ProjectSingle(e, NotifyMark);
    ProjectSingle(e, DelayMark);
    ProjectSingle(e, FinalArg);
  }

  /** Appending a non-empty sequence keeps its last element last. */
  lemma LastOfAppend<U>(a: seq<U>, b: seq<U>)
    requires |b| > 0
    ensures (a + b)[|a + b| - 1] == b[|b| - 1]
  {
  }

  /** The projections of the events of one attempt of the current revision: its invocation, the every-exception observer, and a wait. */
  lemma StepProjections(retry: nat, e: Exn, every: bool, wait: bool)
    ensures var step := [Attempt(retry)] + (if every then [OnEvery(e)] else []) + (if wait then [Delay] else []);
            && Attempts(step) == [retry]
            && Observed(step) == (if every then [e] else [])
            && Notifications(step) == 0
            && Delays(step) == (if wait then 1 else 0)
            && Finals(step) == []
  {
    var observer := if every then [OnEvery(e)] else [];
    var delay := if wait then [Delay] else [];
    ProjectionsSingle(Attempt(retry));
    ProjectionsAppend([Attempt(retry)], observer);
    ProjectionsAppend([Attempt(retry)] + observer, delay);
    if every {
      ProjectionsSingle(OnEvery(e));
    }
    if wait {
      ProjectionsSingle(Delay);
    }
  }

  /** The projections of the events of one attempt of the older revision: its invocation, the observer, and a wait. */
  lemma NotifyStepProjections(retry: nat, notify: bool, wait: bool)
    ensures var step := [Attempt(retry)] + (if notify then [OnException] else []) + (if wait then [Delay] else []);
            && Attempts(step) == [retry]
            && Observed(step) == []
            && Notifications(step) == (if notify then 1 else 0)
            && Delays(step) == (if wait then 1 else 0)
            && Finals(step) == []
  {
    var observer := if notify then [OnException] else [];
    var delay := if wait then [Delay] else [];
    ProjectionsSingle(Attempt(retry));
    ProjectionsAppend([Attempt(retry)], observer);
    ProjectionsAppend([Attempt(retry)] + observer, delay);
    if notify {
      ProjectionsSingle(OnException);
    }
    if wait {
      ProjectionsSingle(Delay);
    }
  }

  /**
    Every wait is preceded by an event of the failed attempt it follows (its
    invocation or its observer) and is followed immediately by the next invocation:
    there is no wait before the first attempt and none after the last.
   */
  ghost predicate DelaysBetweenAttempts(t: seq<Event>) {
    forall i | 0 <= i < |t| && t[i] == Delay ::
      0 < i && i + 1 < |t| && t[i + 1].Attempt? && (t[i - 1].Attempt? || t[i - 1].OnEvery? || t[i - 1].OnException?)
  }

  /** Gluing one attempt's events, optionally followed by a wait, to the rest of a call. */
  lemma DelaysBetweenAttemptsStep(attempt: seq<Event>, delay: seq<Event>, rest: seq<Event>)
    requires |attempt| > 0 && attempt[0].Attempt?
    requires forall i | 0 <= i < |attempt| :: attempt[i].Attempt? || attempt[i].OnEvery? || attempt[i].OnException?
    requires delay == [] || delay == [Delay]
    requires delay == [Delay] ==> |rest| > 0 && rest[0].Attempt?
    requires DelaysBetweenAttempts(rest)
    ensures DelaysBetweenAttempts(attempt + delay + rest)
  {
    var t := attempt + delay + rest;
    assert forall k | 0 <= k < |attempt| :: t[k] == attempt[k];
    forall i | 0 <= i < |t| && t[i] == Delay
      ensures 0 < i && i + 1 < |t| && t[i + 1].Attempt? && (t[i - 1].Attempt? || t[i - 1].OnEvery? || t[i - 1].OnException?)
    {
      if i < |attempt| + |delay| {
        assert t[i + 1] == rest[0];
        assert t[i - 1] == attempt[|attempt| - 1];
      } else {
        var j := i - |attempt| - |delay|;
        assert t[i] == rest[j];
        assert t[i + 1] == rest[j + 1];
        assert t[i - 1] == rest[j - 1];
      }
    }
  }
}
