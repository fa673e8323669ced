/** Bytes, error numbers and results shared by every part of the file-service model. */
module Basics {

  type byte = x: int | 0 <= x < 256

  type Bytes = seq<byte>

  /** The error numbers the file service and its engine answer with. */
  datatype Errno =
    | EPERM | ENOENT | EIO | E2BIG | EBADF | EEXIST | ENOTDIR | EISDIR | EINVAL
    | ENOSPC | EROFS | ERANGE | ENOTEMPTY | ENODATA

  datatype Option<+T> = None | Some(value: T)

  datatype Result<+T> = Ok(value: T) | Err(errno: Errno) {
    predicate IsFailure() { Err? }

    function PropagateFailure<U>(): Result<U>
      requires Err?
    {
      Err(errno)
    }

    function Extract(): T
      requires Ok?
    {
      value
    }
  }
}
