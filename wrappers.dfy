/** The optional value used for Python's "maybe a result" returns
    (`str.find` giving -1, a failed `int()`, a regex search giving None),
    and the result-or-exception of a call that may raise. */
module Wrappers {

  datatype Option<+T> = None | Some(value: T)

  datatype Result<+T, +E> = Ok(value: T) | Err(error: E)

}
