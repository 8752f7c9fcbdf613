/**
 Outcome types shared by the model: `Option` for "not finished yet" and
 `Result` for the `Ok`/`Err` values the Rust functions return.
 */
module Results {

  datatype Option<+T> = None | Some(value: T)

  datatype Result<+T, +E> = Ok(value: T) | Err(error: E)

  /** True when `o` has finished with an error. */
  predicate FinishedErr<T, E>(o: Option<Result<T, E>>) {
    o.Some? && o.value.Err?
  }

  /** True when `o` has finished successfully. */
  predicate FinishedOk<T, E>(o: Option<Result<T, E>>) {
    o.Some? && o.value.Ok?
  }

  /**
   Joins two concurrent fallible computations, as `tokio::try_join!` does:
   the join fails as soon as either side has failed, succeeds with both
   values once both have succeeded, and is still running otherwise.
   When both sides have failed the error reported is the first argument's.
   */
  function TryJoin<A(==), B(==), E(==)>(a: Option<Result<A, E>>, b: Option<Result<B, E>>): (r: Option<Result<(A, B), E>>)
    ensures FinishedOk(r) <==> FinishedOk(a) && FinishedOk(b)
    ensures FinishedOk(r) ==> r.value.value == (a.value.value, b.value.value)
    ensures FinishedErr(a) || FinishedErr(b) <==> FinishedErr(r)
    ensures FinishedErr(r) ==> a == Some(Err(r.value.error)) || b == Some(Err(r.value.error))
  {
    if FinishedErr(a) then Some(Err(a.value.error))
    else if FinishedErr(b) then Some(Err(b.value.error))
    else if a.Some? && b.Some? then Some(Ok((a.value.value, b.value.value)))
    else None
  }
}
