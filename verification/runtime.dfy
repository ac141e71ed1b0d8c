/** Go notions shared by the models. */
module Runtime {
  import opened Bits

  datatype Option<+T> = None | Some(value: T)

  /** A Go byte slice; a nil slice is not an empty one. */
  datatype ByteSlice = Nil | Bytes(bytes: seq<byte>)

  /** A call either returns a value or panics, and a panic ends every call around it. */
  datatype Call<+T> = Value(v: T) | Panic {
    predicate IsFailure() {
      Panic?
    }

    function PropagateFailure<U>(): Call<U>
      requires Panic?
    {
      Panic
    }

    function Extract(): T
      requires Value?
    {
      v
    }
  }
}
