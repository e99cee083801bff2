/** Success and failure values standing in for the `Try` wrapper that the
    store's readers return. */
module Results {

  datatype Option<+T> = None | Some(value: T)

  /** Why a read failed. */
  datatype Error =
    | NoValueAt(path: string)                 // a segment was missing, `undefined` or `null`
    | NoTypeAt(kind: string, path: string)    // a value was found, but of another runtime type
    | NotIndexable(path: string)              // indexing `undefined`/`null` raised a TypeError

  datatype Result<+T> = Success(value: T) | Failure(error: Error) {

    /** `Try.value`: the value on success, the given stand-in otherwise. */
    function ValueOr(default: T): T {
      if Success? then value else default
    }

    function ToOption(): Option<T> {
      if Success? then Some(value) else None
    }
  }
}
