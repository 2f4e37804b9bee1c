# Lazy value holder, modelled in Dafny

A model of `Lazy<T>`, the lazy value holder. It is built with a load callback. The first
loading accessor call that finds the holder not loaded invokes the callback and caches what it returns;
a callback that throws leaves the holder unloaded, so a later call tries again. The class
implements two interfaces: the read-only view `IReadonlyLazy<T>`
(`getValueWithoutLoadingOrThrow`, `isValueLoaded`), which can never cause a load, and the
full view `ILazy<T>`, which adds `getValue` (throws when the load throws) and `tryGetValue`
(never throws; reports a failed load in a `{ success, value | errorMessage }` record).

How it is modelled:

- `Results` holds the value types: `Option`, `Outcome` (returned value or thrown message)
  and `TryResult` (tryGetValue's record).
- `IReadonlyLazy` and `ILazy` state each interface method's documented contract as a
  predicate over an abstract `View` of a holder (loaded flag, cache, number of load attempts,
  outcome of the next attempt). An implementation is a record of operations (`ReadonlyOps`,
  and `LazyOps`, whose `readonly` field is the narrowed view). `IsReadonlyLazy` and `IsLazy`
  say that the operations keep the contracts in every state.
- `LazyClass` is the class. A holder is an immutable value: callback, loaded flag, cache,
  invocation count. The subset type `Lazy<T>` carries the class invariant "loaded implies a
  cached value". The callback is an oracle: `callback(k)` is the outcome of its `k`-th
  invocation. Each accessor is a pure function returning the next holder and the call's
  result, and a throw is an `Err` result.
- `LazyTraces` runs sequences of calls on one holder and proves the multi-call properties.
- `LazyScenarios` replays the class's test scenarios.

The class's `tryGetValue` caches a successful load's value but never sets the loaded flag.
Its interface documentation and its tests say that the flag is set. The model keeps the code
as written (`LazyClass.TryGetValue`) and adds a corrected variant
(`LazyClass.TryGetValueCorrected`). A `Variant` picks which of the two a run uses. The
interface contract is proved for the corrected class and refuted for the class as written;
see "## Findings".

## Model

| member | source | states |
|---|---|---|
| `Results.Capture` | src/classes/Lazy.ts:58-71 | tryGetValue's capture of the load: a returned value becomes a success record with that value, and a throw becomes a failure record carrying the thrown message |
| `LazyClass.Construct` | src/classes/Lazy.ts:8-16 | a new holder keeps the given callback, is unloaded, has an empty cache and has invoked the callback zero times |
| `LazyClass.GetValue` | src/classes/Lazy.ts:18-30 | keeps ILazy's getValue contract: when loaded it returns the cached value and changes nothing; otherwise it makes exactly one load attempt; a returned value is cached, the holder becomes loaded and the value is returned; a throw is passed on with the same message, the holder stays unloaded and the cache is untouched |
| `LazyClass.GetValueWithoutLoadingOrThrow` | src/classes/Lazy.ts:32-41 | keeps the read-only contract: it succeeds if and only if the holder is loaded, returns the cached value, never changes the holder, and fails with the fixed not-loaded message |
| `LazyClass.IsValueLoaded` | src/classes/Lazy.ts:43-45 | keeps the read-only contract: it returns the loaded flag and leaves the holder unchanged |
| `LazyClass.TryGetValue` | src/classes/Lazy.ts:47-72 | as written: its result matches the interface (the cached value when loaded, otherwise the captured outcome of one load attempt); on a loaded holder it changes nothing; otherwise it caches a returned value and leaves a failed load's cache untouched, but it never changes the loaded flag |
| `LazyClass.TryGetValueCorrected` | src/interfaces/ILazy.d.ts:15-24 | keeps ILazy's full tryGetValue contract: a successful load from the unloaded state also marks the holder loaded; a failed one leaves it unloaded and reports the message |
| `LazyClass.ClassImplementsReadonlyView` | src/interfaces/IReadonlyLazy.d.ts:1-19 | the class's read-only operations keep both read-only contracts in every state, so none of them can attempt a load or change the loaded flag or the cache |
| `LazyClass.CorrectedImplementsLazy` | src/interfaces/ILazy.d.ts:6-24 | with the corrected tryGetValue, the class keeps every contract of the full interface in every state |
| `LazyClass.AsWrittenViolatesTryGetValueContract` | src/classes/Lazy.ts:59-65 | as written, the class is not an implementation of the full interface: on a new holder whose callback returns, tryGetValue leaves the holder unloaded |
| `ILazy.FullViewRefinesReadonly` | src/interfaces/ILazy.d.ts:6-13 | for every implementation of the full interface, which extends the read-only one: after a getValue that returns v, the same implementation's isValueLoaded answers true and its getValueWithoutLoadingOrThrow returns v |
| `ILazy.GetValueFailsIffLoadFails` | src/interfaces/ILazy.d.ts:10-22 | from one state, getValue fails exactly when the holder is unloaded and its load attempt throws; exactly then tryGetValue reports failure, with the same message; otherwise both give the same value and leave the same cache |
| `LazyTraces.LoadedIsPermanent` | src/classes/Lazy.ts:19-29 | once loaded, any sequence of calls leaves the holder unchanged: it stays loaded, the cached value never changes, the callback is not invoked again, and every call answers the cached value |
| `LazyTraces.ReadonlyCallsChangeNothing` | src/interfaces/IReadonlyLazy.d.ts:2-4 | any sequence of read-only calls leaves the holder unchanged and each call answers from its current state |
| `LazyTraces.FailingLoadsCountInvocations` | src/classes/Lazy.ts:26-27 | n loading calls with a throwing callback invoke it exactly n times; each call fails with its own invocation's message, and the holder stays unloaded with its cache untouched |
| `LazyTraces.CorrectedLoadsOnFirstSuccess` | src/interfaces/ILazy.d.ts:8-18 | with the corrected tryGetValue, for any call sequence from an unloaded holder, every invocation but the last one failed; the holder is loaded exactly when the last invocation returned, and it caches that value |
| `LazyTraces.VariantsAgreeWithoutTryGetValue` | src/classes/Lazy.ts:18-45 | a call sequence without tryGetValue gives the same results and the same final holder for the class as written and for the corrected class |
| `LazyTraces.AsWrittenTryGetValueNeverLoads` | src/classes/Lazy.ts:58-65 | as written, n tryGetValue calls on an unloaded holder invoke the callback n times even when it returns; the holder never becomes loaded, and each call answers its own invocation's outcome |
| `LazyScenarios.SucceedingGetValue` | src/classes/Lazy.spec.ts:18-49 | with a returning callback, the holder is unloaded at first; the first getValue returns the value and loads the holder; later getValue, getValueWithoutLoadingOrThrow and tryGetValue calls return the same value, and the callback is invoked once in all |
| `LazyScenarios.ReadBeforeLoadThrows` | src/classes/Lazy.spec.ts:87-100 | getValueWithoutLoadingOrThrow on a new holder throws the not-loaded message, invokes nothing and leaves the holder unloaded |
| `LazyScenarios.RepeatedFailingLoads` | src/classes/Lazy.spec.ts:51-65 | with a throwing callback, after the i-th getValue call (or the i-th tryGetValue call) the callback has been invoked i times and the holder is unloaded; every call fails with the callback's message |
| `LazyScenarios.SucceedingTryGetValue` | src/classes/Lazy.spec.ts:112-147 | with a returning callback, the class as written reports unloaded after a successful tryGetValue, invokes the callback again on the second call and then refuses getValueWithoutLoadingOrThrow; the corrected class meets the test's expectations |

## Left out

- The interfaces are not Dafny traits. Each one is a record of operations with a predicate
  saying that the record keeps the documented contracts.
- How the Roblox `opcall` turns a thrown payload into a string is not modelled. A thrown
  payload is an opaque string, and tryGetValue's error message is that string.
- Whatever the callback does besides returning or throwing is left out. The model keeps only
  its outcome for each invocation and the invocation count.
- The tests' GUID generation and test harness are not modelled. The scenario lemmas use an
  arbitrary value or message instead.
- TypeScript's `as T` casts and the `undefined` cache are replaced by `Option` and by the
  invariant "loaded implies a cached value" on the type `Lazy<T>`.
- Concurrency and re-entrancy are left out: the class is single-threaded, and a callback
  cannot call back into its own holder here.
- On tryGetValue, the code and its prose description disagree: the description says a
  successful tryGetValue sets the loaded flag. The model follows the code
  (`LazyClass.TryGetValue`) and states the described behaviour separately
  (`LazyClass.TryGetValueCorrected`).

## Findings

| source | as written | input that shows it | evidently intended | confidence | as-written member | corrected member |
|---|---|---|---|---|---|---|
| src/classes/Lazy.ts:59-65 | the success branch of tryGetValue stores the value but never sets the loaded flag | a new holder whose callback returns "GUID-A", then tryGetValue twice: isValueLoaded stays false, the callback runs twice, and getValueWithoutLoadingOrThrow still throws | set the loaded flag as getValue does (src/classes/Lazy.ts:27), so the value is cached and later calls do not invoke the callback (src/interfaces/ILazy.d.ts:17-18, src/classes/Lazy.spec.ts:126,140-146) | high; not executed | `LazyClass.AsWrittenViolatesTryGetValueContract` | `LazyClass.TryGetValueCorrected` |
