/**
  The scenarios of the unit tests, as instances of the general properties: a
  small type table with the exception types the tests use, and the tests' unit of
  work `AddOne(n)`, which throws `NotSupportedException` until its n-th invocation.
 */
module RetryExamples {

  import opened Wrappers
  import opened TypeHierarchy
  import opened RetryTrace
  import opened Retry
  import RetryProperties
  import LegacyRetry

  const Object: TypeId := 0
  const Exception: TypeId := 1
  const SystemException: TypeId := 2
  const NotSupportedException: TypeId := 3
  const ArithmeticException: TypeId := 4
  const DivideByZeroException: TypeId := 5
  const ArgumentException: TypeId := 6
  const DirectoryInfo: TypeId := 7
  const FileVersionInfo: TypeId := 8

  /** The types the tests name; the two non-exception types are placed directly under `Object`. */
  function Table(): (h: Hierarchy)
    ensures h.Valid() && |h.types| == 9
  {
    Hierarchy([TypeInfo("Object", None),
               TypeInfo("Exception", Some(Object)),
               TypeInfo("SystemException", Some(Exception)),
               TypeInfo("NotSupportedException", Some(SystemException)),
               TypeInfo("ArithmeticException", Some(SystemException)),
               TypeInfo("DivideByZeroException", Some(ArithmeticException)),
               TypeInfo("ArgumentException", Some(SystemException)),
               TypeInfo("DirectoryInfo", Some(Object)),
               TypeInfo("FileVersionInfo", Some(Object))],
              Exception)
  }

  /** The i-th invocation (the (i + 1)-th call) throws a fresh `NotSupportedException` while i + 1 < stopAt. */
  function AddOne(stopAt: nat): nat -> Outcome<()> {
    (i: nat) => if i + 1 < stopAt then Fail(Exn(NotSupportedException, i)) else Ok(())
  }

  lemma AddOneWellFormed(stopAt: nat, cfg: Config)
    requires AllIn(Table(), cfg.typesToHandle)
    ensures WellFormed(Table(), AddOne(stopAt), cfg)
  {
  }

  lemma NotSupportedIsSystemException()
    ensures Inherits(Table(), NotSupportedException, SystemException)
    ensures !Inherits(Table(), NotSupportedException, DivideByZeroException)
  {
    var h := Table();
    assert h.types[NotSupportedException].base == Some(SystemException);
    assert h.types[SystemException].base == Some(Exception);
    assert h.types[Exception].base == Some(Object);
    assert h.types[Object].base == None;
    assert !Inherits(h, Object, DivideByZeroException);
    assert !Inherits(h, Exception, DivideByZeroException);
    assert !Inherits(h, SystemException, DivideByZeroException);
  }

  /** An empty filter retries everything: the first call fails, the retry succeeds. */
  lemma ExecutesOnceThenRetriesOnce(cfg: Config)
    requires cfg == Config(1, false, false, [])
    ensures var run := ExecuteSpec(Table(), AddOne(2), cfg);
            run.result == Returned(()) && |Attempts(run.trace)| == 2 && Delays(run.trace) == 1
  {
    AddOneWellFormed(2, cfg);
    RetryProperties.FirstSuccessReturns(Table(), AddOne(2), cfg, 1);
  }

  /** Every call of AddOne(100) fails, so retryCount 2 ends in an aggregate of three `NotSupportedException`s. */
  lemma ThrowsWhenRetriesRunOut(cfg: Config)
    requires cfg == Config(2, false, false, [])
    ensures var r := ExecuteSpec(Table(), AddOne(100), cfg).result;
            r.Aggregated? && |r.inner| == 3 && forall i | 0 <= i < 3 :: r.inner[i] == Exn(NotSupportedException, i)
  {
    AddOneWellFormed(100, cfg);
    RetryProperties.ExhaustionAggregates(Table(), AddOne(100), cfg);
  }

  /** Three failures before success: three waits, none before the first call and none after the last. */
  lemma SleepsBetweenExceptions(cfg: Config)
    requires cfg == Config(3, false, false, [])
    ensures var run := ExecuteSpec(Table(), AddOne(4), cfg);
            && run.result == Returned(())
            && Delays(run.trace) == 3
            && DelaysBetweenAttempts(run.trace)
  {
    AddOneWellFormed(4, cfg);
    RetryProperties.FirstSuccessReturns(Table(), AddOne(4), cfg, 3);
    RetryProperties.DelaysOnlyBetweenAttempts(Table(), AddOne(4), cfg);
  }

  lemma RejectsNegativeRetryCount(cfg: Config)
    requires cfg == Config(-1, false, false, [])
    ensures ExecuteSpec(Table(), AddOne(9), cfg) == Run(ArgError(NegativeRetryCount(-1)), [])
  {
    AddOneWellFormed(9, cfg);
  }

  /** The filter DirectoryInfo, FileVersionInfo, ArgumentException is rejected, naming the first two. */
  lemma RejectsTypesThatAreNotExceptions(cfg: Config)
    requires cfg == Config(1, false, false, [DirectoryInfo, FileVersionInfo, ArgumentException])
    ensures ExecuteSpec(Table(), AddOne(100), cfg) ==
            Run(ArgError(NotExceptionTypes(2, ["DirectoryInfo", "FileVersionInfo"])), [])
  {
    var h := Table();
    AddOneWellFormed(100, cfg);
    assert !Inherits(h, Object, Exception);
    assert !IsException(h, DirectoryInfo) && !IsException(h, FileVersionInfo);
    assert IsException(h, ArgumentException) by {
      assert h.types[ArgumentException].base == Some(SystemException);
      assert Inherits(h, SystemException, Exception);
    }
    assert [ArgumentException][1..] == [];
    assert NotExceptions(h, [ArgumentException]) == [];
    assert [FileVersionInfo, ArgumentException][1..] == [ArgumentException];
    assert NotExceptions(h, [FileVersionInfo, ArgumentException]) == [FileVersionInfo];
    assert cfg.typesToHandle[1..] == [FileVersionInfo, ArgumentException];
    assert NotExceptions(h, cfg.typesToHandle) == [DirectoryInfo, FileVersionInfo];
    assert Names(h, [DirectoryInfo, FileVersionInfo]) == ["DirectoryInfo", "FileVersionInfo"];
  }

  /** A filter of DivideByZeroException does not retry a `NotSupportedException`: it escapes after one call. */
  lemma OnlyCatchesGivenExceptions(cfg: Config)
    requires cfg == Config(10, false, false, [DivideByZeroException])
    ensures var run := ExecuteSpec(Table(), AddOne(100), cfg);
            run.result == Rethrown(Exn(NotSupportedException, 0)) && Attempts(run.trace) == [0]
  {
    var h := Table();
    AddOneWellFormed(100, cfg);
    NotSupportedIsSystemException();
    assert IsException(h, DivideByZeroException) by {
      assert Inherits(h, ArithmeticException, Exception) by {
        assert Inherits(h, SystemException, Exception);
      }
    }
    assert [DivideByZeroException][1..] == [];
    assert !AnyMatches(h, [DivideByZeroException], NotSupportedException);
    assert AddOne(100)(0) == Fail(Exn(NotSupportedException, 0));
    RetryProperties.UnhandledFailureRethrown(h, AddOne(100), cfg, 0);
  }

  /** A filter of SystemException retries the `NotSupportedException` that derives from it. */
  lemma CatchesChildException(cfg: Config)
    requires cfg == Config(1, false, false, [SystemException])
    ensures var run := ExecuteSpec(Table(), AddOne(2), cfg);
            run.result == Returned(()) && |Attempts(run.trace)| == 2
  {
    var h := Table();
    AddOneWellFormed(2, cfg);
    NotSupportedIsSystemException();
    assert IsException(h, SystemException);
    RetryProperties.FirstSuccessReturns(h, AddOne(2), cfg, 1);
  }

  /** Success on the fifth call: the every-exception observer runs four times, the final observer never. */
  lemma ObservesEveryException(cfg: Config)
    requires cfg == Config(100, true, true, [])
    ensures var run := ExecuteSpec(Table(), AddOne(5), cfg);
            |Observed(run.trace)| == 4 && Finals(run.trace) == []
  {
    AddOneWellFormed(5, cfg);
    RetryProperties.FirstSuccessReturns(Table(), AddOne(5), cfg, 4);
    FailuresAt(AddOne(5), 0, 4);
  }

  /** AddOne(100) with retryCount 9: ten observed exceptions, then one final call with the aggregate. */
  lemma ObservesFinalException(cfg: Config)
    requires cfg == Config(9, true, true, [])
    ensures var run := ExecuteSpec(Table(), AddOne(100), cfg);
            && run.result.Aggregated?
            && |Observed(run.trace)| == 10
            && Finals(run.trace) == [run.result.inner]
  {
    AddOneWellFormed(100, cfg);
    RetryProperties.ExhaustionAggregates(Table(), AddOne(100), cfg);
    RetryProperties.ExhaustionAttempts(Table(), AddOne(100), cfg);
    RetryProperties.ExhaustionFinal(Table(), AddOne(100), cfg);
  }

  /**
   * The older revision, with a filter of DivideByZeroException: one call, rethrown. This holds
   * with the test's null observer and equally with an observer, which is never called because
   * the filter is checked first.
   */
  lemma LegacyOnlyCatchesGivenExceptions(cfg: LegacyRetry.LegacyConfig)
    requires cfg.retryCount == 10 && cfg.exceptionTypes == [DivideByZeroException]
    ensures var run := LegacyRetry.ExecuteSpec(Table(), AddOne(100), cfg);
            run.result == Rethrown(Exn(NotSupportedException, 0)) && run.trace == [Attempt(0)]
  {
    NotSupportedIsSystemException();
    assert [DivideByZeroException][1..] == [];
    assert !AnyMatches(Table(), [DivideByZeroException], NotSupportedException);
    assert AddOne(100)(0) == Fail(Exn(NotSupportedException, 0));
    LegacyRetry.LoopUnhandled(Table(), AddOne(100), cfg, 11, 0, []);
  }
}
