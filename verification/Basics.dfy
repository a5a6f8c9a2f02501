/** Vocabulary shared by the modules of the model. */
module Basics {
  datatype Option<T> = None | Some(value: T)

  /** What a call gives back, or that it raised an exception. */
  datatype Result<T> = Ok(value: T) | Raised

  type Byte = b: int | 0 <= b < 256

  // The int of Java and C.
  const MIN_INT := -0x8000_0000
  const MAX_INT := 0x7fff_ffff

  // The long of Java.
  const MIN_LONG := -0x8000_0000_0000_0000
  const MAX_LONG := 0x7fff_ffff_ffff_ffff

  lemma ConcatAssociates<T>(a: seq<T>, b: seq<T>, c: seq<T>)
    ensures (a + b) + c == a + (b + c)
  {
  }
}
