/**
 The errors the URL store hands to the HTTP handlers.

 The store returns either one of three sentinel errors or a driver error,
 and usually wraps it with `fmt.Errorf("%s: %w", op, err)`. The handlers
 classify with `errors.Is`, which looks through every layer of wrapping;
 `Is` below walks the same chain.
 */
module StoreErrors {

  /** What an error ultimately is: one of the store's sentinels, or a
      failure reported by the SQL driver (connection, I/O, bad statement). */
  datatype Kind =
    | URLNotFound
    | URLExists
    | AliasExists
    | Driver(reason: string)

  /** An `error` value: a root kind, possibly wrapped with context text
      (the text before ": %w" in the format string). */
  datatype StoreError =
    | Base(kind: Kind)
    | Wrapped(context: string, cause: StoreError)

  /** The outcome of a store call, Go's `(T, error)` pair. */
  datatype Result<T> = Ok(value: T) | Err(error: StoreError)

  /** The error followed by what repeatedly unwrapping it yields, as
      `errors.Unwrap` would; the last entry is the unwrapped root. */
  function Chain(e: StoreError): (c: seq<StoreError>)
    ensures |c| > 0 && c[0] == e
  {
    match e
    case Base(_) => [e]
    case Wrapped(_, cause) => [e] + Chain(cause)
  }

  /** `errors.Is(e, target)` for a sentinel target: true exactly when some
      error in the unwrap chain of `e` is that sentinel. */
  predicate Is(e: StoreError, k: Kind)
    ensures Is(e, k) <==> exists i :: 0 <= i < |Chain(e)| && Chain(e)[i] == Base(k)
  {
    match e
    case Base(k') =>
      assert Chain(e) == [e];
      k' == k
    case Wrapped(_, cause) =>
      var c := Chain(cause);
      assert Chain(e) == [e] + c;
      assert forall i :: 0 < i < |Chain(e)| ==> Chain(e)[i] == c[i - 1];
      assert (exists i :: 0 <= i < |c| && c[i] == Base(k)) ==>
             (exists i :: 0 <= i < |Chain(e)| && Chain(e)[i] == Base(k)) by {
        if exists i :: 0 <= i < |c| && c[i] == Base(k) {
          var i :| 0 <= i < |c| && c[i] == Base(k);
          assert Chain(e)[i + 1] == Base(k);
        }
      }
      Is(cause, k)
  }

  /** The kind at the bottom of the wrapping chain; `errors.Is` holds for
      it and for nothing else. */
  function Root(e: StoreError): (k: Kind)
    ensures Is(e, k)
    ensures forall k' :: Is(e, k') ==> k' == k
  {
    match e
    case Base(k) => k
    case Wrapped(_, cause) => Root(cause)
  }

  /** `fmt.Errorf("%s: %w", context, e)`: wrapping never changes how the
      handlers classify an error. */
  function Wrap(context: string, e: StoreError): (r: StoreError)
    ensures forall k :: Is(r, k) <==> Is(e, k)
    ensures Root(r) == Root(e)
  {
    Wrapped(context, e)
  }

  /** The context layers of an error, outermost first. */
  function Contexts(e: StoreError): seq<string> {
    match e
    case Base(_) => []
    case Wrapped(c, cause) => [c] + Contexts(cause)
  }
}
