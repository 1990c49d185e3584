/** Java value conventions the modelled classes rely on: nullable references,
    `String` concatenation of a null reference, and 32-bit `int` arithmetic. */
module JavaValues {

  /** A nullable reference: `None` is Java's `null`. */
  datatype Option<+T> = None | Some(value: T)

  /** The result of an operation that may fail with an error value. */
  datatype Result<+T, +E> = Success(value: T) | Failure(error: E)

  /** What `"..." + x` appends for a nullable string `x`: Java writes a null
      reference as the four characters `null`. */
  function Concatenated(s: Option<string>): (r: string)
    ensures s.Some? ==> r == s.value
    ensures s.None? ==> r == "null"
  {
    match s
    case Some(v) => v
    case None => "null"
  }

  const IntMin: int := -0x8000_0000
  const IntMax: int := 0x7fff_ffff

  predicate IsInt(x: int) {
    IntMin <= x <= IntMax
  }

  /** Two's-complement wrap-around of a mathematical integer into a Java `int`. */
  function WrapInt(x: int): (r: int)
    ensures IsInt(r)
    ensures (r - x) % 0x1_0000_0000 == 0
    ensures IsInt(x) ==> r == x
  {
    (x - IntMin) % 0x1_0000_0000 + IntMin
  }
}
