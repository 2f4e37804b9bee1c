/**
 The full view of a lazy value holder. It extends the read-only view with the two
 operations that may attempt a load: getValue, which throws when the load throws, and
 tryGetValue, which reports a failed load in its result instead.
 */
module ILazy {
  import opened Results
  import opened IReadonlyLazy

  /** getValue: when loaded, returns the loaded value with no load attempt. Otherwise it
      attempts exactly one load; if the load returns v, v is cached, the holder becomes
      loaded and v is returned; if the load throws, getValue throws the same payload and
      the holder stays unloaded. */
  ghost predicate GetValueContract<T>(pre: View<T>, post: View<T>, r: Outcome<T>) {
    if pre.loaded then
      && post == pre
      && r.Ok?
      && pre.value == Some(r.value)
    else
      && post.attempts == pre.attempts + 1
      && match pre.pending
         case Ok(v) => post.loaded && post.value == Some(v) && r == Ok(v)
         case Err(m) => !post.loaded && r == Err(m)
  }

  /** What tryGetValue returns: a success record with the loaded value when loaded;
      otherwise the outcome of the one load it attempts, with a throw turned into a
      failure record carrying the error message. It never throws. */
  ghost predicate TryGetValueResultContract<T>(pre: View<T>, r: TryResult<T>) {
    if pre.loaded then
      r.TrySuccess? && pre.value == Some(r.value)
    else
      r == Capture(pre.pending)
  }

  /** What tryGetValue does to the holder: nothing when loaded; otherwise one load attempt,
      after which a returned value is cached and the holder is loaded, while a thrown load
      leaves it unloaded. */
  ghost predicate TryGetValueStateContract<T>(pre: View<T>, post: View<T>) {
    if pre.loaded then
      post == pre
    else
      && post.attempts == pre.attempts + 1
      && match pre.pending
         case Ok(v) => post.loaded && post.value == Some(v)
         case Err(_) => !post.loaded
  }

  ghost predicate TryGetValueContract<T>(pre: View<T>, post: View<T>, r: TryResult<T>) {
    TryGetValueResultContract(pre, r) && TryGetValueStateContract(pre, post)
  }

  /** The operations an implementation of the full view supplies. The read-only operations
      come as a `ReadonlyOps` record, which is also what a collaborator given only the
      read-only view holds. */
  datatype LazyOps<!S, T> = LazyOps(
    readonly: ReadonlyOps<S, T>,
    getValue: S -> (S, Outcome<T>),
    tryGetValue: S -> (S, TryResult<T>))

  /** The implementation keeps the read-only contracts and both loading contracts from
      every state. */
  ghost predicate IsLazy<S(!new), T>(ops: LazyOps<S, T>) {
    && IsReadonlyLazy(ops.readonly)
    && (forall s: S :: GetValueContract(ops.readonly.view(s), ops.readonly.view(ops.getValue(s).0), ops.getValue(s).1))
    && (forall s: S :: TryGetValueContract(ops.readonly.view(s), ops.readonly.view(ops.tryGetValue(s).0), ops.tryGetValue(s).1))
  }

  /** The full view is a refinement of the read-only one, and the two views agree: after a
      getValue that returns `v`, the read-only operations of the same implementation report
      the holder loaded and read back `v`. */
  lemma FullViewRefinesReadonly<S(!new), T>(ops: LazyOps<S, T>, s: S)
    requires IsLazy(ops)
    requires ops.getValue(s).1.Ok?
    ensures ops.readonly.isValueLoaded(ops.getValue(s).0).1
    ensures ops.readonly.getValueWithoutLoadingOrThrow(ops.getValue(s).0).1 == ops.getValue(s).1
  {
  }

  /** Neither loading operation can throw a value away: getValue fails exactly when the
      holder is unloaded and its load attempt throws, and then tryGetValue, from the same
      state, reports the same message. */
  lemma GetValueFailsIffLoadFails<T>(pre: View<T>, post: View<T>, r: Outcome<T>, post': View<T>, r': TryResult<T>)
    requires GetValueContract(pre, post, r)
    requires TryGetValueContract(pre, post', r')
    ensures r.Err? <==> !pre.loaded && pre.pending.Err?
    ensures r.Err? <==> r'.TryFailure?
    ensures r.Err? ==> r'.errorMessage == r.message == pre.pending.message
    ensures r.Ok? ==> r' == TrySuccess(r.value) && post.value == post'.value
  {
  }
}
