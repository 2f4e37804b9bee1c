/**
 The read-only view of a lazy value holder. A holder seen through this view can be
 inspected, and its value read once it is loaded, but nothing in the view can make it
 attempt a load.

 An interface is modelled by the contract each of its operations promises, stated over an
 abstract `View` of the holder, and by a record of operations (`ReadonlyOps`) that an
 implementation supplies; `IsReadonlyLazy` says that the operations keep the contracts in
 every state.
 */
module IReadonlyLazy {
  import opened Results

  /** What the interfaces can say about a holder: whether it is loaded, what it caches,
      how many load attempts it has made, and what its next load attempt would produce. */
  datatype View<+T> = View(loaded: bool, value: Option<T>, attempts: nat, pending: Outcome<T>)

  /** getValueWithoutLoadingOrThrow: returns the loaded value if there is one and throws
      otherwise; the holder is left exactly as it was, so no load is attempted. */
  ghost predicate GetValueWithoutLoadingContract<T>(pre: View<T>, post: View<T>, r: Outcome<T>) {
    && post == pre
    && (r.Ok? <==> pre.loaded)
    && (r.Ok? ==> pre.value == Some(r.value))
  }

  /** isValueLoaded: answers whether the holder has loaded its value, and changes nothing. */
  ghost predicate IsValueLoadedContract<T>(pre: View<T>, post: View<T>, r: bool) {
    && post == pre
    && r == pre.loaded
  }

  /** The operations an implementation of the read-only view supplies, as functions from
      its own state type `S`: each returns the state after the call and the call's result. */
  datatype ReadonlyOps<!S, T> = ReadonlyOps(
    view: S -> View<T>,
    getValueWithoutLoadingOrThrow: S -> (S, Outcome<T>),
    isValueLoaded: S -> (S, bool))

  /** The implementation keeps both read-only contracts from every state. */
  ghost predicate IsReadonlyLazy<S(!new), T>(ops: ReadonlyOps<S, T>) {
    forall s: S ::
      && GetValueWithoutLoadingContract(ops.view(s), ops.view(ops.getValueWithoutLoadingOrThrow(s).0),
                                        ops.getValueWithoutLoadingOrThrow(s).1)
      && IsValueLoadedContract(ops.view(s), ops.view(ops.isValueLoaded(s).0), ops.isValueLoaded(s).1)
  }
}
