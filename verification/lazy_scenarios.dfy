/**
 The class's own test scenarios, replayed on the model. A callback that returns `v` on
 every invocation stands for the succeeding test callback, and one that throws `m` on every
 invocation for the throwing one; the invocation counter replaces the tests' execution count.
 */
module LazyScenarios {
  import opened Results
  import opened LazyClass
  import opened LazyTraces

  function Returning<T>(v: T): (cb: Callback<T>) {
    _ => Ok(v)
  }

  function Throwing<T>(m: string): (cb: Callback<T>) {
    _ => Err(m)
  }

  /** The same call made n times. */
  function Repeat(c: Call, n: nat): (calls: seq<Call>)
    ensures |calls| == n
    ensures forall i :: 0 <= i < n ==> calls[i] == c
  {
    seq(n, _ => c)
  }

  /** getValue with a succeeding callback: a new holder is unloaded; the first getValue
      returns the value after one invocation and loads the holder; later getValue and
      getValueWithoutLoadingOrThrow calls return the same value with no further invocation. */
  lemma SucceedingGetValue<T>(variant: Variant, v: T)
    ensures var r := Run(variant, Construct(Returning(v)),
                         [IsValueLoadedCall, GetValueCall, IsValueLoadedCall, GetValueCall,
                          GetValueWithoutLoadingOrThrowCall, TryGetValueCall]);
            && r.1 == [Flag(false), Returned(Ok(v)), Flag(true), Returned(Ok(v)),
                       Returned(Ok(v)), Tried(TrySuccess(v))]
            && r.0.invocations == 1
            && r.0.loaded
  {
  }

  /** getValueWithoutLoadingOrThrow on a new holder throws the not-loaded message without
      invoking the callback and leaves the holder unloaded. */
  lemma ReadBeforeLoadThrows<T>(variant: Variant, cb: Callback<T>)
    ensures var r := Run(variant, Construct(cb), [GetValueWithoutLoadingOrThrowCall, IsValueLoadedCall]);
            && r.1 == [Returned(Err(NotLoadedMessage)), Flag(false)]
            && r.0 == Construct(cb)
  {
  }

  /** n getValue calls, or n tryGetValue calls, with a throwing callback: after call i the
      callback has been invoked i times and the holder is still unloaded, and every call
      failed with the callback's message. */
  lemma {:induction false} RepeatedFailingLoads<T>(variant: Variant, m: string, c: Call, n: nat)
    requires c.GetValueCall? || c.TryGetValueCall?
    ensures forall i :: 0 <= i <= n ==>
              var r := Run(variant, Construct<T>(Throwing(m)), Repeat(c, i));
              r.0.invocations == i && !r.0.loaded
    ensures forall i :: 0 <= i < n ==>
              Run(variant, Construct<T>(Throwing(m)), Repeat(c, n)).1[i] == FailureResponse(c, m)
  {
    var s := Construct<T>(Throwing(m));
    forall i | 0 <= i <= n
      ensures var r := Run(variant, s, Repeat(c, i)); r.0.invocations == i && !r.0.loaded
    {
      FailingLoadsCountInvocations(variant, s, Repeat(c, i));
    }
    FailingLoadsCountInvocations(variant, s, Repeat(c, n));
  }

  /** tryGetValue with a succeeding callback, as the class is written: the first call
      returns the value but the holder still reports unloaded, and a second call invokes
      the callback again. The tests expect the holder to be loaded and the count to stay 1,
      which the corrected tryGetValue achieves. */
  lemma SucceedingTryGetValue<T>(v: T)
    ensures var r := Run(AsWritten, Construct(Returning(v)),
                         [TryGetValueCall, IsValueLoadedCall, TryGetValueCall, GetValueWithoutLoadingOrThrowCall]);
            && r.1 == [Tried(TrySuccess(v)), Flag(false), Tried(TrySuccess(v)), Returned(Err(NotLoadedMessage))]
            && r.0.invocations == 2
            && !r.0.loaded
            && r.0.value == Some(v)
    ensures var r := Run(Corrected, Construct(Returning(v)),
                         [TryGetValueCall, IsValueLoadedCall, TryGetValueCall, GetValueWithoutLoadingOrThrowCall]);
            && r.1 == [Tried(TrySuccess(v)), Flag(true), Tried(TrySuccess(v)), Returned(Ok(v))]
            && r.0.invocations == 1
            && r.0.loaded
  {
  }
}
