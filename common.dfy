/** Types shared by every part of the file-type analyzer model. */
module Common {

  /** A Java `byte`, seen unsigned. The analyzer only ever compares bytes for
      equality, where the signed and the unsigned view agree, and the cast
      `(byte) v` of an int `v` is `v % 256` in this view. */
  type Byte = x: int | 0 <= x < 256

  type Bytes = seq<Byte>

  /** Stands for a Java reference that may be null. */
  datatype Option<+T> = None | Some(value: T)

  /** The Java exceptions that escape an operation of the analyzer. */
  datatype Exception =
    | IllegalArgument     // IllegalArgumentException
    | NumberFormat        // NumberFormatException from Integer.parseInt
    | IndexOutOfBounds    // ArrayIndexOutOfBoundsException
    | NegativeArraySize   // NegativeArraySizeException
    | IO                  // IOException

  /** The outcome of an operation that may throw. */
  datatype Result<+T> = Success(value: T) | Failure(error: Exception)

  /** Java's `(byte) v`, as an unsigned value. */
  function ToByte(v: int): (b: Byte)
    ensures (v - b) % 256 == 0
    ensures 0 <= v < 256 ==> b == v
  {
    v % 256
  }

  function Min(a: int, b: int): (m: int)
    ensures m <= a && m <= b && (m == a || m == b)
  {
    if a <= b then a else b
  }
}
