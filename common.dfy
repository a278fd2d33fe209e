/** Wrappers shared by the whole model: optional values, results, the .NET
    exceptions the request handlers let escape, and 32-bit integers. */
module Common {

  datatype Option<+T> = None | Some(value: T)

  datatype Result<+T, +E> = Success(value: T) | Failure(error: E) {
    predicate IsFailure() { Failure? }

    function PropagateFailure<U>(): Result<U, E>
      requires Failure?
    {
      Failure(error)
    }

    function Extract(): T
      requires Success?
    {
      value
    }
  }

  /** An exception no handler catches; the host turns each into a server fault. */
  datatype Fault =
    | ArgumentOutOfRange          // string.Substring asked for a negative length
    | ArgumentNull                // a LINQ operator given a member the request left out
    | NullReference               // enumerating a member the request left out
    | KeyNotFound(name: string)   // JsonElement.GetProperty on an absent member
    | InvalidOperation            // a JsonElement read as the wrong kind of value
    | DuplicateKey                // two tracked rows with the same primary key
    | UniqueViolation             // the unique index on UserName rejected the save

  /** The C# `int`. */
  newtype int32 = x: int | -0x8000_0000 <= x < 0x8000_0000

  /** Unchecked C# arithmetic: the result is congruent to x modulo 2^32. */
  function Wrap32(x: int): (r: int32)
    ensures (r as int - x) % 0x1_0000_0000 == 0
    ensures -0x8000_0000 <= x < 0x8000_0000 ==> r as int == x
  {
    ((x + 0x8000_0000) % 0x1_0000_0000 - 0x8000_0000) as int32
  }
}
