/** Failure-compatible wrappers used for the null references and thrown exceptions of the system. */
module Wrappers {
  datatype Option<T> = None | Some(value: T)

  datatype Result<T, E> = Success(value: T) | Failure(error: E)
}

/** Tuples as the stage elements and the co-group closure see them: fixed-arity rows of values. */
module Tuples {
  /** One value of a tuple; Null stands for Java's null entry. */
  datatype Value = Null | Val(id: int)

  type Tuple = seq<Value>

  /** A tuple of the given arity holding only nulls (Tuple.size(n) in the source). */
  function Nulls(n: nat): Tuple
  {
    seq(n, _ => Null)
  }
}
