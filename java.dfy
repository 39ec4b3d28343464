/**
 * The few pieces of Java's primitive semantics the server relies on:
 * bytes, the narrowing cast to `short`, and the exceptions that can be
 * raised along the modelled paths.
 */
module Java {

  /** A Java `byte`, kept as its unsigned bit pattern 0..255. */
  newtype byte = x: int | 0 <= x < 256

  /** A Java `int`. */
  newtype int32 = x: int | -0x8000_0000 <= x < 0x8000_0000

  const SHORT_MIN: int := -32768
  const SHORT_MAX: int := 32767

  /** The exceptions that the modelled code raises (their messages are log text only). */
  datatype JavaException =
    | IOException
    | NullPointerException
    | BufferUnderflowException
    | IllegalArgumentException
    | NegativeArraySizeException
    | ArrayIndexOutOfBoundsException

  /**
   * The narrowing conversion `(short) n`: the low 16 bits of `n` read as a
   * two's-complement number. The result is the unique short congruent to `n`.
   */
  function ToShort(n: int): (r: int)
    ensures SHORT_MIN <= r <= SHORT_MAX
    ensures (n - r) % 0x1_0000 == 0
    ensures 0 <= n <= SHORT_MAX ==> r == n
  {
    var low := n % 0x1_0000;
    if low <= SHORT_MAX then low else low - 0x1_0000
  }

  /** The narrowing conversion `(byte) n`: the low 8 bits of `n`. */
  function ToByte(n: int): (b: byte)
    ensures (n - b as int) % 256 == 0
    ensures 0 <= n < 256 ==> b as int == n
  {
    (n % 256) as byte
  }
}
