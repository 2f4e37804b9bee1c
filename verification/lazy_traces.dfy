/**
 Sequences of calls on one holder. `Run` feeds a list of accessor calls to a holder, one
 after another, and collects their results; the lemmas state what the class promises about
 such sequences: loading is permanent and happens at most once, read-only calls change
 nothing, and every failed load costs one callback invocation.
 */
module LazyTraces {
  import opened Results
  import opened LazyClass

  datatype Call = GetValueCall | TryGetValueCall | GetValueWithoutLoadingOrThrowCall | IsValueLoadedCall

  /** The result of one call: a value or a throw, a tryGetValue record, or a loaded flag. */
  datatype Response<T> = Returned(outcome: Outcome<T>) | Tried(result: TryResult<T>) | Flag(loaded: bool)

  predicate IsReadonly(c: Call) {
    c.GetValueWithoutLoadingOrThrowCall? || c.IsValueLoadedCall?
  }

  function Step<T>(variant: Variant, s: Lazy<T>, c: Call): (r: (Lazy<T>, Response<T>))
    ensures r.0.callback == s.callback
    ensures s.invocations <= r.0.invocations <= s.invocations + 1
    ensures IsReadonly(c) ==> r.0 == s
    ensures s.loaded ==> r.0 == s
  {
    match c
    case GetValueCall => var (s', o) := GetValue(s); (s', Returned(o))
    case TryGetValueCall => var (s', t) := TryGetValueOf(variant, s); (s', Tried(t))
    case GetValueWithoutLoadingOrThrowCall => var (s', o) := GetValueWithoutLoadingOrThrow(s); (s', Returned(o))
    case IsValueLoadedCall => var (s', b) := IsValueLoaded(s); (s', Flag(b))
  }

  /** Makes the calls in order, each on the holder the previous one left behind. */
  function Run<T>(variant: Variant, s: Lazy<T>, calls: seq<Call>): (r: (Lazy<T>, seq<Response<T>>))
    ensures |r.1| == |calls|
    ensures r.0.callback == s.callback
    ensures s.invocations <= r.0.invocations <= s.invocations + |calls|
    decreases |calls|
  {
    if calls == [] then
      (s, [])
    else
      var (s1, first) := Step(variant, s, calls[0]);
      var (s2, rest) := Run(variant, s1, calls[1..]);
      (s2, [first] + rest)
  }

  /** What a call answers on a holder loaded with `v`: every accessor hands back `v`. */
  function CachedResponse<T>(c: Call, v: T): (r: Response<T>) {
    match c
    case GetValueCall => Returned(Ok(v))
    case TryGetValueCall => Tried(TrySuccess(v))
    case GetValueWithoutLoadingOrThrowCall => Returned(Ok(v))
    case IsValueLoadedCall => Flag(true)
  }

  /** Once a holder is loaded, no call changes it: it stays loaded, its cached value never
      changes, the callback is never invoked again, and every call answers the cached value. */
  lemma {:induction false} LoadedIsPermanent<T>(variant: Variant, s: Lazy<T>, calls: seq<Call>)
    requires s.loaded
    ensures Run(variant, s, calls).0 == s
    ensures forall i :: 0 <= i < |calls| ==> Run(variant, s, calls).1[i] == CachedResponse(calls[i], s.value.value)
    decreases |calls|
  {
    if calls != [] {
      var (s1, first) := Step(variant, s, calls[0]);
      assert s1 == s;
      assert first == CachedResponse(calls[0], s.value.value);
      LoadedIsPermanent(variant, s1, calls[1..]);
    }
  }

  /** What a read-only call answers on holder `s`. */
  function ReadonlyResponse<T>(s: Lazy<T>, c: Call): (r: Response<T>)
    requires IsReadonly(c)
  {
    if c.IsValueLoadedCall? then Flag(s.loaded)
    else if s.loaded then Returned(Ok(s.value.value))
    else Returned(Err(NotLoadedMessage))
  }

  /** Read-only calls never load and never change the holder; each answers from the
      holder's current state. */
  lemma {:induction false} ReadonlyCallsChangeNothing<T>(variant: Variant, s: Lazy<T>, calls: seq<Call>)
    requires forall i :: 0 <= i < |calls| ==> IsReadonly(calls[i])
    ensures Run(variant, s, calls).0 == s
    ensures forall i :: 0 <= i < |calls| ==> Run(variant, s, calls).1[i] == ReadonlyResponse(s, calls[i])
    decreases |calls|
  {
    if calls != [] {
      assert IsReadonly(calls[0]);
      var (s1, first) := Step(variant, s, calls[0]);
      assert s1 == s;
      assert first == ReadonlyResponse(s, calls[0]);
      ReadonlyCallsChangeNothing(variant, s1, calls[1..]);
    }
  }

  /** What a loading call answers when its load throws `m`: getValue throws `m` and
      tryGetValue returns a failure record carrying `m`. */
  function FailureResponse<T>(c: Call, m: string): (r: Response<T>)
    requires c.GetValueCall? || c.TryGetValueCall?
  {
    if c.GetValueCall? then Returned(Err(m)) else Tried(TryFailure(m))
  }

  /** Loading calls on an unloaded holder whose callback keeps throwing: each call invokes
      the callback once and fails with that invocation's message, and the holder stays
      unloaded with its cache untouched. */
  lemma {:induction false} FailingLoadsCountInvocations<T>(variant: Variant, s: Lazy<T>, calls: seq<Call>)
    requires !s.loaded
    requires forall i :: 0 <= i < |calls| ==> calls[i].GetValueCall? || calls[i].TryGetValueCall?
    requires forall k :: s.invocations <= k < s.invocations + |calls| ==> s.callback(k).Err?
    ensures Run(variant, s, calls).0.invocations == s.invocations + |calls|
    ensures !Run(variant, s, calls).0.loaded
    ensures Run(variant, s, calls).0.value == s.value
    ensures forall i :: 0 <= i < |calls| ==>
              Run(variant, s, calls).1[i] == FailureResponse(calls[i], s.callback(s.invocations + i).message)
    decreases |calls|
  {
    if calls != [] {
      assert s.callback(s.invocations).Err?;
      var (s1, first) := Step(variant, s, calls[0]);
      assert s1 == s.(invocations := s.invocations + 1);
      assert first == FailureResponse(calls[0], s.callback(s.invocations).message);
      FailingLoadsCountInvocations(variant, s1, calls[1..]);
      var r := Run(variant, s, calls);
      forall i | 0 <= i < |calls|
        ensures r.1[i] == FailureResponse(calls[i], s.callback(s.invocations + i).message)
      {
        if i > 0 {
          assert calls[i] == calls[1..][i - 1];
        }
      }
    }
  }

  /** With the corrected tryGetValue, the callback is invoked only until it first returns:
      every invocation but the last one failed, and the holder is loaded exactly when the
      last invocation returned, caching what it returned. */
  lemma {:induction false} CorrectedLoadsOnFirstSuccess<T>(s: Lazy<T>, calls: seq<Call>)
    requires !s.loaded
    ensures var f := Run(Corrected, s, calls).0;
            forall k :: s.invocations <= k && k + 1 < f.invocations ==> s.callback(k).Err?
    ensures var f := Run(Corrected, s, calls).0;
            f.loaded <==> s.invocations < f.invocations && s.callback(f.invocations - 1).Ok?
    ensures var f := Run(Corrected, s, calls).0;
            f.loaded ==> f.value == Some(s.callback(f.invocations - 1).value)
    decreases |calls|
  {
    if calls != [] {
      var (s1, _) := Step(Corrected, s, calls[0]);
      if s1.loaded {
        assert s1.invocations == s.invocations + 1;
        assert s.callback(s.invocations).Ok?;
        LoadedIsPermanent(Corrected, s1, calls[1..]);
      } else {
        assert s1.invocations > s.invocations ==> s.callback(s.invocations).Err?;
        CorrectedLoadsOnFirstSuccess(s1, calls[1..]);
      }
    }
  }

  /** The class as written differs from the corrected one only in tryGetValue: a sequence
      of calls that never uses tryGetValue behaves the same under both. */
  lemma {:induction false} VariantsAgreeWithoutTryGetValue<T>(s: Lazy<T>, calls: seq<Call>)
    requires forall i :: 0 <= i < |calls| ==> !calls[i].TryGetValueCall?
    ensures Run(AsWritten, s, calls) == Run(Corrected, s, calls)
    decreases |calls|
  {
    if calls != [] {
      assert !calls[0].TryGetValueCall?;
      var (s1, _) := Step(AsWritten, s, calls[0]);
      VariantsAgreeWithoutTryGetValue(s1, calls[1..]);
    }
  }

  /** The class's tryGetValue as written never loads the holder: from an unloaded holder,
      every tryGetValue call invokes the callback again, even after a call that succeeded,
      and answers that invocation's outcome. */
  lemma {:induction false} AsWrittenTryGetValueNeverLoads<T>(s: Lazy<T>, calls: seq<Call>)
    requires !s.loaded
    requires forall i :: 0 <= i < |calls| ==> calls[i].TryGetValueCall?
    ensures Run(AsWritten, s, calls).0.invocations == s.invocations + |calls|
    ensures !Run(AsWritten, s, calls).0.loaded
    ensures forall i :: 0 <= i < |calls| ==>
              Run(AsWritten, s, calls).1[i] == Tried(Capture(s.callback(s.invocations + i)))
    decreases |calls|
  {
    if calls != [] {
      var (s1, first) := Step(AsWritten, s, calls[0]);
      assert first == Tried(Capture(s.callback(s.invocations)));
      AsWrittenTryGetValueNeverLoads(s1, calls[1..]);
      var r := Run(AsWritten, s, calls);
      forall i | 0 <= i < |calls|
        ensures r.1[i] == Tried(Capture(s.callback(s.invocations + i)))
      {
        if i > 0 {
          assert calls[i] == calls[1..][i - 1];
        }
      }
    }
  }
}
