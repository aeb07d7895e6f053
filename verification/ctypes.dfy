/** C-level vocabulary shared by the process table and the command decoder:
    bytes (`char`), the NUL terminator, nullable values and error results. */
module CTypes {

  /** One `char` of a C buffer. */
  newtype byte = x: int | 0 <= x < 256

  /** The string terminator `'\0'`. */
  const NUL: byte := 0

  /** The characters of a C string, without its terminator. */
  type CString = seq<byte>

  /** A nullable value: `None` plays the part of the C `NULL` pointer. */
  datatype Option<+T> = None | Some(value: T)

  /** A `char **` vector: `None` is a NULL slot. */
  type CVector = seq<Option<CString>>

  /** The outcome of an operation that can be refused. */
  datatype Result<+T, +E> = Success(value: T) | Failure(error: E)
}
