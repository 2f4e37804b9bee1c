/**
 The class `Lazy<T>`: a holder that is constructed with a load callback, calls it only
 when a loading accessor finds the value not yet loaded, and caches what it returns.

 The callback is an oracle: `callback(k)` is what its invocation number `k` (counting from
 0) returns or throws. The holder counts its invocations, so which outcome the next load
 attempt meets is `callback(invocations)`. Each accessor is a pure function from the holder
 before the call to the holder after it and the call's result; a throw is an `Err` result.
 */
module LazyClass {
  import opened Results
  import opened IReadonlyLazy
  import opened ILazy

  type Callback<T> = nat -> Outcome<T>

  /** The holder's fields: the callback it was built with, the loaded flag, the cache and
      the number of callback invocations so far. */
  datatype LazyState<T> = LazyState(callback: Callback<T>, loaded: bool, value: Option<T>, invocations: nat)

  /** A holder reachable through the class: a loaded holder always has a cached value.
      The converse does not hold for the class as written (see `TryGetValue`). */
  type Lazy<T> = s: LazyState<T> | s.loaded ==> s.value.Some?
    witness LazyState(_ => Err(""), false, None, 0)

  /** The message getValueWithoutLoadingOrThrow throws when nothing is loaded. */
  const NotLoadedMessage := "Attempted to get value from Lazy instance without loading, but value was not yet loaded"

  /** The holder as the interfaces see it. */
  function ViewOf<T>(s: Lazy<T>): (v: View<T>) {
    View(s.loaded, s.value, s.invocations, s.callback(s.invocations))
  }

  /** A new holder is unloaded and has not called its callback. */
  function Construct<T>(callback: Callback<T>): (s: Lazy<T>)
    ensures s.callback == callback
    ensures !s.loaded && s.invocations == 0
    ensures s.value == None
  {
    LazyState(callback, false, None, 0)
  }

  function GetValue<T>(s: Lazy<T>): (r: (Lazy<T>, Outcome<T>))
    ensures r.0.callback == s.callback
    ensures GetValueContract(ViewOf(s), ViewOf(r.0), r.1)
    ensures r.1.Err? ==> r.0.value == s.value
  {
    if s.loaded then
      (s, Ok(s.value.value))
    else
      match s.callback(s.invocations)
      case Ok(v) => (s.(loaded := true, value := Some(v), invocations := s.invocations + 1), Ok(v))
      case Err(m) => (s.(invocations := s.invocations + 1), Err(m))
  }

  function GetValueWithoutLoadingOrThrow<T>(s: Lazy<T>): (r: (Lazy<T>, Outcome<T>))
    ensures GetValueWithoutLoadingContract(ViewOf(s), ViewOf(r.0), r.1)
    ensures r.0 == s
    ensures r.1.Err? ==> r.1.message == NotLoadedMessage
  {
    if s.loaded then (s, Ok(s.value.value)) else (s, Err(NotLoadedMessage))
  }

  function IsValueLoaded<T>(s: Lazy<T>): (r: (Lazy<T>, bool))
    ensures IsValueLoadedContract(ViewOf(s), ViewOf(r.0), r.1)
    ensures r.0 == s
  {
    (s, s.loaded)
  }

  /** tryGetValue as the class writes it. Its result is what the interface promises, and
      when unloaded it makes one load attempt and caches a returned value; but it never
      sets the loaded flag, so after a successful load the holder still reports unloaded
      and the next loading call invokes the callback again. */
  function TryGetValue<T>(s: Lazy<T>): (r: (Lazy<T>, TryResult<T>))
    ensures r.0.callback == s.callback
    ensures TryGetValueResultContract(ViewOf(s), r.1)
    ensures s.loaded ==> r.0 == s
    ensures r.0.loaded == s.loaded
    ensures r.0.invocations == if s.loaded then s.invocations else s.invocations + 1
    ensures !s.loaded && r.1.TrySuccess? ==> r.0.value == Some(r.1.value)
    ensures r.1.TryFailure? ==> r.0.value == s.value
  {
    if s.loaded then
      (s, TrySuccess(s.value.value))
    else
      match s.callback(s.invocations)
      case Ok(v) => (s.(value := Some(v), invocations := s.invocations + 1), TrySuccess(v))
      case Err(m) => (s.(invocations := s.invocations + 1), TryFailure(m))
  }

  /** tryGetValue as its interface and the class's tests describe it: like `TryGetValue`,
      but a successful load also sets the loaded flag, as getValue does. */
  function TryGetValueCorrected<T>(s: Lazy<T>): (r: (Lazy<T>, TryResult<T>))
    ensures r.0.callback == s.callback
    ensures TryGetValueContract(ViewOf(s), ViewOf(r.0), r.1)
    ensures r.1.TryFailure? ==> r.0.value == s.value
  {
    if s.loaded then
      (s, TrySuccess(s.value.value))
    else
      match s.callback(s.invocations)
      case Ok(v) => (s.(loaded := true, value := Some(v), invocations := s.invocations + 1), TrySuccess(v))
      case Err(m) => (s.(invocations := s.invocations + 1), TryFailure(m))
  }

  /** Which tryGetValue a holder uses: the class's own, or the corrected one. */
  datatype Variant = AsWritten | Corrected

  function TryGetValueOf<T>(variant: Variant, s: Lazy<T>): (r: (Lazy<T>, TryResult<T>)) {
    match variant
    case AsWritten => TryGetValue(s)
    case Corrected => TryGetValueCorrected(s)
  }

  /** The read-only view of the class: the record a collaborator is handed when it may
      read the value but not trigger a load. */
  function ReadonlyView<T>(): (ops: ReadonlyOps<Lazy<T>, T>) {
    ReadonlyOps(s => ViewOf(s), s => GetValueWithoutLoadingOrThrow(s), s => IsValueLoaded(s))
  }

  /** The class as an implementation of the full interface. */
  function ClassOps<T>(variant: Variant): (ops: LazyOps<Lazy<T>, T>) {
    LazyOps(ReadonlyView(), s => GetValue(s), s => TryGetValueOf(variant, s))
  }

  /** Whichever tryGetValue it uses, the class implements the read-only view. */
  lemma ClassImplementsReadonlyView<T(!new)>()
    ensures IsReadonlyLazy(ReadonlyView<T>())
  {
  }

  /** With the corrected tryGetValue, the class implements the full interface. */
  lemma CorrectedImplementsLazy<T(!new)>()
    ensures IsLazy(ClassOps<T>(Corrected))
  {
  }

  /** As written, the class does not implement the full interface: from a new holder whose
      callback returns a value, tryGetValue leaves the holder unloaded. */
  lemma AsWrittenViolatesTryGetValueContract()
    ensures !IsLazy(ClassOps<string>(AsWritten))
    ensures !TryGetValueStateContract(ViewOf(Construct(_ => Ok("GUID-A"))),
                                      ViewOf(TryGetValue(Construct<string>(_ => Ok("GUID-A"))).0))
  {
    var s := Construct<string>(_ => Ok("GUID-A"));
    var ops := ClassOps<string>(AsWritten);
    assert ops.tryGetValue(s) == TryGetValue(s);
    assert !TryGetValueStateContract(ops.readonly.view(s), ops.readonly.view(ops.tryGetValue(s).0));
  }
}
