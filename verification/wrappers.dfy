/** The optional and fallible results used by the vector model:
    - Option<T> stands for Rust's `Option<T>` (the "absent" result of `get`, `get_mut` and `pop`);
    - Result<T, E> stands for an operation that either yields a value or aborts with a diagnostic.
 */
module Wrappers {

  datatype Option<+T> = None | Some(value: T)

  datatype Result<+T, +E> = Success(value: T) | Failure(error: E)
}
