/**
 The error values and failure-compatible result types shared by every layer.

 A Go function of this repository returns a pair `(value, err)` and, whenever
 `err` is not nil, the zero value of its result type. `Result<T>` carries the same
 information: `Err(e)` stands for `(zero, e)`, `Ok(v)` for `(v, nil)`.
 */
module Results {

  /** A Go `byte`. */
  type byte = b: int | 0 <= b < 256

  /** A Go `[]byte`. */
  type Bytes = seq<byte>

  /** The errors the modelled code can return. */
  datatype Error =
    /** `base64.CorruptInputError`: the input offset of the offending character. */
    | CorruptInput(offset: nat)
    /** An error returned by the key-management API, passed on unchanged. */
    | Backend(message: string)
    /** `os.Setenv` rejected the variable name (`EINVAL` from the system call). */
    | InvalidEnv
    /** An error returned by `encoding/json`. */
    | Json(message: string)

  /** A value or the error that replaced it. */
  datatype Result<+T> = Ok(value: T) | Err(error: Error) {

    predicate IsFailure() {
      Err?
    }

    function PropagateFailure<U>(): Result<U>
      requires Err?
    {
      Err(error)
    }

    function Extract(): T
      requires Ok?
    {
      value
    }
  }

  /** A Go `error` result on its own: nil or an error. */
  datatype Outcome = Pass | Failed(error: Error)
}
