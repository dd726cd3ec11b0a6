# SimpleRetry, modelled in Dafny

SimpleRetry is a small C# library with one static class, `Retry`. Its `Execute` and
`ExecuteAsync` methods run a unit of work up to `retryCount + 1` times, waiting a fixed
interval between attempts. A call goes like this:

1. It checks its arguments first. A negative count is an `ArgumentException`. A type
   filter with entries that are not exception types is a `SimpleRetryArgumentException`
   naming those entries.
2. After each failed attempt it calls an optional every-exception observer.
3. When a non-empty filter does not match the exception, it rethrows that exception at once.
4. Otherwise it collects the exception and waits, unless no attempt is left.
5. When every attempt fails, it calls an optional final observer with an
   `AggregateException` of the collected exceptions, in attempt order, and throws it.

An older revision (`SimpleRetry/Retry.cs`) has the same loop with three differences:
- it checks the filter before its argument-less observer;
- it does not validate the filter;
- it has no final observer.

The model spans nine files:

- `type_hierarchy.dfy` (`TypeHierarchy`) replaces reflection with a finite table. A type
  is an index, and each entry holds the type's name and its base type. On this table,
  `Inherits` is the walk of `IsOfTypeOrInHerits`, and `BaseChain` is the chain it
  walks.
- `retry_trace.dfy` (`RetryTrace`) holds the values both revisions share:
  - an exception (its type and an identity);
  - the outcome of one invocation;
  - the result of a call (a returned value, a rethrown exception, an aggregate, or an
    argument error);
  - the trace of events: an invocation, an observer call, a wait, a final observer call.

  It also holds the projections of a trace (invocations, observed exceptions, waits,
  final-observer arguments), the filter test `Handles`, and the 32-bit wrap-around
  `Wrap32`.
- `retry.dfy` (`Retry`) models the current revision:
  - the validation functions;
  - `ExecuteSpec`, a recursive statement of what a call does;
  - `ExecuteSpecAsWritten`, the same with the loop bound `retryCount + 1` computed in
    unchecked 32-bit arithmetic, as the source computes it;
  - the source's methods: the `while (true)` base-chain walk, and the loops of
    `Execute<T>` and `ExecuteAsync<T>` with their list of exceptions. Each loop method is
    proved to produce exactly the result and trace of `ExecuteSpecAsWritten`.
    `AsWrittenAgreesBelowMax` equates that with `ExecuteSpec` for every count below
    `int.MaxValue`.
- `retry_properties.dfy` (`RetryProperties`) proves what a call of the current revision
  does. It covers rejection, the first success, the unhandled exception, exhaustion,
  where the waits fall, and the 32-bit bound.
- `legacy_retry.dfy` (`LegacyRetry`) and `legacy_properties.dfy` (`LegacyRetryProperties`)
  do the same for the older revision.
- `retry_versions.dfy` (`RetryVersions`) relates the two revisions.
- `retry_examples.dfy` (`RetryExamples`) restates the unit-test scenarios on a concrete
  type table.

The environment is abstracted as follows:

- **The unit of work** is a total function `work: nat -> Outcome<T>`. Its value at i is
  the outcome of the i-th invocation, so a stateful delegate is covered by choosing that
  function.
- **Observers and waits** are events appended to the trace. Their arguments are recorded
  (the exception, or the aggregate's contents).
- **Null** observers are the booleans of `Config`. A null filter is the empty filter.
- **The retry count** is the C# `int`, a 32-bit `newtype`.

## Model

| member | source | states |
|---|---|---|
| TypeHierarchy.BaseChain | Source/SimpleRetry/Retry.cs:216-231 | The chain starts at the source type. Each next element is the previous one's base (with a strictly smaller id). The last element has no base or is its own base. |
| TypeHierarchy.Inherits | Source/SimpleRetry/Retry.cs:216-231 | The walk as recursion. A type matches itself; otherwise, a type with no base or that is its own base matches nothing else; otherwise the answer is its base's. Its meaning is stated by `InheritsIffOnChain` and the lemmas below. |
| TypeHierarchy.IsException | Source/SimpleRetry/Retry.cs:198 | A type is an exception type when it is `Exception` or inherits from it, which is the `IsOfTypeOrInHerits(t, typeof(Exception))` test. |
| TypeHierarchy.InheritsIffOnChain | Source/SimpleRetry/Retry.cs:216-231 | The walk answers true exactly when the target lies on the source's base chain. |
| TypeHierarchy.InheritsReflexive | Source/SimpleRetry/Retry.cs:220-223 | Every type matches itself. |
| TypeHierarchy.InheritsAscends | Source/SimpleRetry/Retry.cs:224-229 | A match only goes up the hierarchy: the target is a type of the table whose id is at most the source's. |
| TypeHierarchy.InheritsTransitive | Source/SimpleRetry/Retry.cs:216-231 | A type matches every ancestor of each of its ancestors. |
| TypeHierarchy.InheritsAntisymmetric | Source/SimpleRetry/Retry.cs:216-231 | Two types that match each other are the same type. |
| RetryTrace.Wrap32 | Source/SimpleRetry/Retry.cs:68 | The result is the 32-bit value congruent to the input modulo 2^32, and equals the input when it is in range (C#'s unchecked `int` addition). |
| RetryTrace.AnyMatches | Source/SimpleRetry/Retry.cs:78 | `Any(type => ex.IsOfTypeOrInherits(type))`, one entry at a time from the left. Its meaning is stated by `AnyMatchesIff`. |
| RetryTrace.Handles | Source/SimpleRetry/Retry.cs:78 | An exception is retried when the filter is empty (null or no entries) or some entry matches it (also SimpleRetry/Retry.cs:36). `HandlesIffChainMeetsFilter` states it in terms of the base chain. |
| RetryTrace.AnyMatchesIff | Source/SimpleRetry/Retry.cs:78 | The left-to-right `Any` over the filter is true exactly when some entry is the exception's type or one of its ancestors. |
| RetryTrace.HandlesIffChainMeetsFilter | Source/SimpleRetry/Retry.cs:78 | An exception is retried exactly when the filter is empty or one of its entries lies on the base chain of the exception's type. |
| RetryTrace.HandlesSubKinds | Source/SimpleRetry/Retry.cs:78 | A filter entry that is an ancestor of an ancestor of the exception's type handles the exception. |
| RetryTrace.FailuresAt | Source/SimpleRetry/Retry.cs:83 | When every invocation in a range throws, the collected list has one exception per attempt, the i-th being that of the i-th attempt. |
| RetryTrace.FailuresSnoc | Source/SimpleRetry/Retry.cs:83 | A further failed attempt appends its exception at the end of the list. |
| RetryTrace.RangeElements | Source/SimpleRetry/Retry.cs:68 | The attempt indices of a run from `lo` to `hi` are lo, lo + 1, …, in order. |
| Retry.ValidateRetryCountParameter | Source/SimpleRetry/Retry.cs:186-192 | It reports an error exactly when the count is negative, and the error carries the given value. |
| Retry.NotExceptions | Source/SimpleRetry/Retry.cs:198 | The offenders are entries of the table, and there are no more of them than filter entries. |
| Retry.NotExceptionsMembers | Source/SimpleRetry/Retry.cs:198 | A type is an offender exactly when it is a filter entry that is not an exception type. The list is empty exactly when every entry is an exception type. |
| Retry.NotExceptionsAppend | Source/SimpleRetry/Retry.cs:198 | Collecting offenders distributes over concatenation of the filter, so they keep filter order. |
| Retry.Names | Source/SimpleRetry/Retry.cs:201 | One name per type: the i-th is the short name of the i-th type. |
| Retry.ValidateTypeParameter | Source/SimpleRetry/Retry.cs:194-207 | It rejects exactly the filters with a non-exception entry. A rejection reports a positive count equal to the number of names, and names every offending entry. |
| Retry.ValidateParameters | Source/SimpleRetry/Retry.cs:180-184 | A negative count is reported first. Otherwise the result is that of the filter check. |
| Retry.IsOfTypeOrInHerits | Source/SimpleRetry/Retry.cs:216-231 | The `while (true)` walk returns a match exactly when the target is on the source's base chain. |
| Retry.IsOfTypeOrInherits | Source/SimpleRetry/Retry.cs:209-214 | The extension method gives the walk's answer from the exception's runtime type. |
| Retry.Loop | Source/SimpleRetry/Retry.cs:67-93 | The loop from attempt `retry` on, with `exceptions` collected, while `retry < bound`: the invocation; on failure, the every-exception observer, then a rethrow if the filter does not match, else the exception appended and a wait before every attempt but the last; when the attempts run out, the final observer and the aggregate. Its properties are the `RetryProperties.Loop*` lemmas. |
| Retry.ExecuteSpec | Source/SimpleRetry/Retry.cs:63-94 | A call as intended: an argument error with no events, or the loop from attempt 0 for retryCount + 1 attempts. |
| Retry.ExecuteSpecAsWritten | Source/SimpleRetry/Retry.cs:68 | A call as written: the same, with the loop bound wrapped to 32 bits. It is the as-written half of the first finding. |
| Retry.Execute | Source/SimpleRetry/Retry.cs:63-94 | The loop over the mutable exception list, bounded by the wrapped 32-bit `retryCount + 1`, yields exactly the result and event trace of `ExecuteSpecAsWritten`, which `Retry.AsWrittenAgreesBelowMax` equates with `ExecuteSpec` for every count below int.MaxValue. |
| Retry.ExecuteAction | Source/SimpleRetry/Retry.cs:32-39 | The `Action` overload, run through `Execute<T>`, yields the result and trace of `ExecuteSpecAsWritten`, and of `ExecuteSpec` below int.MaxValue. |
| Retry.ExecuteAsync | Source/SimpleRetry/Retry.cs:145-178 | The awaiting loop has the same wrapped bound as `Execute<T>` and yields the same result and trace, `ExecuteSpecAsWritten`: same attempts, same observer order, same waits. |
| RetryProperties.NegativeRetryCountRejected | Source/SimpleRetry/Retry.cs:186-191 | A negative count gives an argument error carrying the value, with no invocation and no observer call. |
| RetryProperties.NonExceptionFilterRejected | Source/SimpleRetry/Retry.cs:194-206 | A filter with a non-exception entry is rejected before any event. The error has a positive count and the names of the offending entries collected in filter order (`Retry.NotExceptions`). |
| RetryProperties.ValidationPasses | Source/SimpleRetry/Retry.cs:180-184 | Validation passes exactly for a non-negative count and a filter of exception types. |
| RetryProperties.FirstSuccessReturns | Source/SimpleRetry/Retry.cs:68-73 | When attempt k is the first success, attempts 0..k run and that value is returned. The observer saw the k earlier exceptions. There are k waits and no final observer call. |
| RetryProperties.LoopReturns | Source/SimpleRetry/Retry.cs:68-87 | The same, from any attempt with any list already collected. |
| RetryProperties.UnhandledFailureRethrown | Source/SimpleRetry/Retry.cs:76-81 | An exception that a non-empty filter does not match is rethrown unchanged after attempts 0..k. The observer saw it; its call is the last event. There is no wait after it and no final observer. |
| RetryProperties.LoopRethrows | Source/SimpleRetry/Retry.cs:76-81 | The same, from any attempt (result, invocations, observed exceptions, waits, final calls). |
| RetryProperties.LoopRethrowsLast | Source/SimpleRetry/Retry.cs:76-81 | The observer's call for the rethrown exception is the run's last event. |
| RetryProperties.ExhaustionAggregates | Source/SimpleRetry/Retry.cs:67-93 | When every attempt fails with a handled exception, the aggregate holds exactly retryCount + 1 exceptions, the i-th being that of attempt i. |
| RetryProperties.ExhaustionAttempts | Source/SimpleRetry/Retry.cs:68-87 | In that case the work runs exactly retryCount + 1 times, the observer sees every exception in order, and there are retryCount waits. |
| RetryProperties.ExhaustionFinal | Source/SimpleRetry/Retry.cs:91-93 | In that case the final observer is called once, as the last event, with exactly the aggregate that is thrown. |
| RetryProperties.LoopAggregatesResult | Source/SimpleRetry/Retry.cs:83-93 | From any attempt, the aggregate is the list collected so far followed by every later exception. |
| RetryProperties.LoopAggregatesTrace | Source/SimpleRetry/Retry.cs:68-87 | From any attempt, every remaining attempt runs, each exception is observed, and the remaining waits are counted. |
| RetryProperties.LoopAggregatesFinal | Source/SimpleRetry/Retry.cs:91-92 | From any attempt, the final observer is called once with the full aggregate, or not at all when absent. |
| RetryProperties.LoopAggregatesLast | Source/SimpleRetry/Retry.cs:91-93 | The final observer's call is the last event, and its argument is the thrown aggregate. |
| RetryProperties.DelaysOnlyBetweenAttempts | Source/SimpleRetry/Retry.cs:84-87 | Each wait follows an event of a failed attempt and comes right before the next invocation. There is none before the first attempt or after the last. A call is rejected exactly when validation fails, and then has no events. |
| RetryProperties.LoopDelays | Source/SimpleRetry/Retry.cs:84-87 | From any attempt, waits sit only between attempts, and the run starts with that attempt's invocation. |
| RetryProperties.LoopNeverRejects | Source/SimpleRetry/Retry.cs:65-94 | Once past validation, the loop never ends in an argument error. |
| RetryProperties.MaxRetryCountNeverInvokesWork | Source/SimpleRetry/Retry.cs:68 | As written, retryCount = int.MaxValue throws an empty aggregate without invoking the work. The final observer, when given, is called once, with the empty list. |
| Retry.AsWrittenAgreesBelowMax | Source/SimpleRetry/Retry.cs:68 | For every count below int.MaxValue, the as-written call and the intended call coincide. |
| RetryProperties.ValidCallInvokesWork | Source/SimpleRetry/Retry.cs:68-72 | As intended, every call that passes validation invokes the work, attempt 0 first. |
| LegacyRetry.IsOfTypeOrInherits | SimpleRetry/Retry.cs:58-74 | The older walk returns a match exactly when the type is on the base chain of the exception's runtime type. |
| LegacyRetry.Loop | SimpleRetry/Retry.cs:26-55 | The older loop: the invocation; on failure, a rethrow if the filter does not match, else the argument-less observer, the exception appended and a wait before every attempt but the last; when the attempts run out, the aggregate. |
| LegacyRetry.ExecuteSpec | SimpleRetry/Retry.cs:19-56 | A call as intended: an argument error for a negative count, with no events, or the loop from attempt 0 for retryCount + 1 attempts. |
| LegacyRetry.ExecuteSpecAsWritten | SimpleRetry/Retry.cs:27 | A call as written: the same, with the loop bound wrapped to 32 bits. |
| LegacyRetry.Execute | SimpleRetry/Retry.cs:19-56 | The older loop, bounded by the wrapped 32-bit `retryCount + 1`, yields exactly the result and trace of `LegacyRetry.ExecuteSpecAsWritten`, which `LegacyRetry.AsWrittenAgreesBelowMax` equates with `LegacyRetry.ExecuteSpec` below int.MaxValue. |
| LegacyRetry.ExecuteAction | SimpleRetry/Retry.cs:10-17 | The older `Action` overload yields the same: `LegacyRetry.ExecuteSpecAsWritten`, and `LegacyRetry.ExecuteSpec` below int.MaxValue. |
| LegacyRetryProperties.NegativeRetryCountRejected | SimpleRetry/Retry.cs:21-24 | A negative count is an argument error carrying the value, before any invocation. |
| LegacyRetryProperties.FirstSuccessReturns | SimpleRetry/Retry.cs:29-32 | The first success at attempt k is returned after k + 1 invocations, k observer calls and k waits. |
| LegacyRetryProperties.LoopReturns | SimpleRetry/Retry.cs:27-51 | The same, from any attempt. |
| LegacyRetryProperties.UnhandledFailureRethrown | SimpleRetry/Retry.cs:36-45 | An unmatched exception is rethrown after attempts 0..k. The observer was called only for the k earlier failures. The failing invocation is the last event. |
| LegacyRetryProperties.LoopRethrows | SimpleRetry/Retry.cs:36-45 | The same, from any attempt. |
| LegacyRetryProperties.LoopRethrowsLast | SimpleRetry/Retry.cs:36-39 | The failing invocation is the last event: nothing observes the rethrown exception. |
| LegacyRetryProperties.ExhaustionAggregates | SimpleRetry/Retry.cs:26-55 | When every attempt fails with a handled exception, the aggregate holds exactly retryCount + 1 exceptions, in attempt order. |
| LegacyRetryProperties.ExhaustionAttempts | SimpleRetry/Retry.cs:42-51 | In that case there are retryCount + 1 invocations, one observer call per handled failure (the last event), and retryCount waits. |
| LegacyRetryProperties.LoopAggregatesResult | SimpleRetry/Retry.cs:47-55 | From any attempt, the aggregate is the collected list followed by every later exception. |
| LegacyRetryProperties.LoopAggregatesTrace | SimpleRetry/Retry.cs:42-51 | From any attempt, every remaining attempt runs, with one observer call each and the remaining waits. |
| LegacyRetryProperties.LoopAggregatesLast | SimpleRetry/Retry.cs:42-55 | The observer's call after the last attempt ends the run. |
| LegacyRetryProperties.DelaysOnlyBetweenAttempts | SimpleRetry/Retry.cs:48-51 | Waits sit only between attempts. The only argument error is a negative count (the filter is not validated), and a rejected call has no events. |
| LegacyRetryProperties.LoopDelays | SimpleRetry/Retry.cs:48-51 | From any attempt, waits sit only between attempts. |
| LegacyRetryProperties.LoopNeverRejects | SimpleRetry/Retry.cs:26-55 | The older loop never ends in an argument error. |
| LegacyRetryProperties.MaxRetryCountNeverInvokesWork | SimpleRetry/Retry.cs:27 | As written, retryCount = int.MaxValue throws an empty aggregate with an empty trace. |
| LegacyRetry.AsWrittenAgreesBelowMax | SimpleRetry/Retry.cs:27 | Below int.MaxValue, the as-written and intended calls coincide. |
| LegacyRetryProperties.ValidCallInvokesWork | SimpleRetry/Retry.cs:27-31 | As intended, a call with a non-negative count invokes the work, attempt 0 first. |
| RetryVersions.LoopsAgree | SimpleRetry/Retry.cs:27-55 | With the same count and filter, the two loops end in the same result after the same invocations and the same number of waits. |
| RetryVersions.RevisionsAgree | Source/SimpleRetry/Retry.cs:63-94 | The two revisions' calls agree in result, invocations and waits, except for a filter that names a non-exception type. The current revision rejects that filter before any event; the older one runs it. |
| RetryExamples.AddOne | Source/SimpleRetry.UnitTests/RetryTests.cs:183-190 | The tests' unit of work: invocation i (0-based) leaves the call counter at i + 1, so it throws a fresh `NotSupportedException` while i + 1 < stopAt and returns after that. |
| RetryExamples.Table | Source/SimpleRetry.UnitTests/RetryTests.cs:33-92 | The test types form a valid table of nine types. |
| RetryExamples.ExecutesOnceThenRetriesOnce | Source/SimpleRetry.UnitTests/RetryTests.cs:22-27 | AddOne(2) with retryCount 1 returns after two invocations and one wait. |
| RetryExamples.ThrowsWhenRetriesRunOut | Source/SimpleRetry.UnitTests/RetryTests.cs:29-34 | AddOne(100) with retryCount 2 throws an aggregate of the three `NotSupportedException`s, in order. |
| RetryExamples.SleepsBetweenExceptions | Source/SimpleRetry.UnitTests/RetryTests.cs:36-48 | AddOne(4) with retryCount 3 waits exactly three times, only between attempts. |
| RetryExamples.RejectsNegativeRetryCount | Source/SimpleRetry.UnitTests/RetryTests.cs:150-154 | retryCount -1 is rejected with the value -1 and no events. |
| RetryExamples.RejectsTypesThatAreNotExceptions | Source/SimpleRetry.UnitTests/RetryTests.cs:58-62 | The filter DirectoryInfo, FileVersionInfo, ArgumentException is rejected with count 2 and the names DirectoryInfo, FileVersionInfo. |
| RetryExamples.OnlyCatchesGivenExceptions | Source/SimpleRetry.UnitTests/RetryTests.cs:64-69 | A DivideByZeroException filter rethrows the first `NotSupportedException` after one invocation. |
| RetryExamples.CatchesChildException | Source/SimpleRetry.UnitTests/RetryTests.cs:89-94 | A SystemException filter retries the derived `NotSupportedException`. |
| RetryExamples.ObservesEveryException | Source/SimpleRetry.UnitTests/RetryTests.cs:96-105 | Success on the fifth call: four observed exceptions and no final observer call. |
| RetryExamples.ObservesFinalException | Source/SimpleRetry.UnitTests/RetryTests.cs:107-115 | AddOne(100) with retryCount 9: ten observed exceptions, then one final call with the thrown aggregate. |
| RetryExamples.LegacyOnlyCatchesGivenExceptions | SimpleRetry.UnitTests/RetryTests.cs:56-61 | In the older revision, the DivideByZeroException filter rethrows after one invocation, both with the test's null observer and with an observer, which is not called because the filter is checked first. |

## Left out

- Waiting and time: `Task.Delay(...).Wait()`, `await Task.Delay` and `Thread.Sleep` are a `Delay` event. The interval's value, which the code never checks, is not modelled, so neither are the tests' wall-clock bounds. What is lost with it: a negative interval other than -1 ms makes the wait throw `ArgumentOutOfRangeException` from inside the catch block at the first wait, so that exception escapes instead of the retry; an interval of -1 ms waits forever. A `Delay` event always completes.
- Asynchrony: awaiting the work, the observers and the delay is not modelled. `ExecuteAsync<T>` is the same sequence of events as `Execute<T>`. Its final observer's task is invoked but not awaited; only the invocation is recorded.
- `ExecuteAsync(Action)` (Source/SimpleRetry/Retry.cs:114-123) is not modelled. It starts one task before any validation and re-awaits that same task on every retry, so it never re-runs the action. Its behaviour rests on the task library's semantics for a task awaited repeatedly.
- Reflection: `GetType()` and `BaseType` are a finite table. Real .NET chains are longer; for example, `DirectoryInfo` sits under `FileSystemInfo` and `MarshalByRefObject`. The examples place the two non-exception types directly under `Object`, which does not change whether they are exceptions.
- Message texts: an argument error carries the given count, or the number and names of the offending types. The formatted messages and .NET's "Parameter name" suffix are not modelled. `SimpleRetryArgumentException.cs` is not part of this model.
- Exceptions thrown by the observers themselves are not modelled; the source gives them no handling.
- Null entries inside the filter are not modelled. A null filter is the empty filter.
- `ExecuteSpec`: the unit of work is a function of the attempt index only. Side effects it has on the caller's state are outside the model.
- The samples, `ExceptionTests.cs`, the copy `SimpleRetry/Retry - Copy.cs`, and the test frameworks are not modelled. The test scenarios are restated in `RetryExamples`.

## Findings

| source | as written | input that shows it | evidently intended | confidence | as-written member | corrected member |
|---|---|---|---|---|---|---|
| Source/SimpleRetry/Retry.cs:68 | `retry < retryCount + 1` is computed in unchecked 32-bit arithmetic (the same at line 149 in `ExecuteAsync<T>`) | retryCount = 2147483647 (int.MaxValue): the bound wraps to int.MinValue, the loop body never runs, the work is never invoked, and an empty `AggregateException` is thrown after the final observer | up to retryCount + 1 attempts, at least one (`retry <= retryCount`) | not executed | RetryProperties.MaxRetryCountNeverInvokesWork | RetryProperties.ValidCallInvokesWork |
| SimpleRetry/Retry.cs:27 | the same loop bound in the older revision | retryCount = 2147483647: no invocation, and an empty `AggregateException` is thrown | at least one attempt | not executed | LegacyRetryProperties.MaxRetryCountNeverInvokesWork | LegacyRetryProperties.ValidCallInvokesWork |

`Retry.ExecuteSpecAsWritten` and `LegacyRetry.ExecuteSpecAsWritten` model the loop bound
as written, through `Wrap32`, and the loop methods (`Retry.Execute`, `Retry.ExecuteAction`,
`Retry.ExecuteAsync`, `LegacyRetry.Execute`, `LegacyRetry.ExecuteAction`) run that bound
and are proved equal to them. `ExecuteSpec` uses the intended bound `retryCount + 1`, the
properties are proved about it, and `AsWrittenAgreesBelowMax` carries them to the methods
for every count below `int.MaxValue`.
