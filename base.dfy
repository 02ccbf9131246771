/**
 * Small wrappers shared by every module of the proxy model.
 *
 * `Option` stands for a Java reference that may be `null`; `Outcome` stands
 * for a Java call that either returns a value or throws an unchecked
 * exception (NumberFormatException, ArrayIndexOutOfBoundsException,
 * NullPointerException) which the model does not distinguish further.
 */
module Base {

  datatype Option<+T> = None | Some(value: T)

  datatype Outcome<+T> = Returns(value: T) | Throws

  /** The 32-bit signed range of a Java `int`. */
  const IntMin: int := -0x8000_0000
  const IntMax: int := 0x7FFF_FFFF

  predicate IsInt32(x: int) {
    IntMin <= x <= IntMax
  }

  /** Java `int` addition: two's-complement wrap-around. */
  function AddInt32(a: int, b: int): (r: int)
    requires IsInt32(a) && IsInt32(b)
    ensures IsInt32(r)
    ensures IsInt32(a + b) ==> r == a + b
    ensures a + b > IntMax ==> r == a + b - 0x1_0000_0000
    ensures a + b < IntMin ==> r == a + b + 0x1_0000_0000
  {
    if a + b > IntMax then a + b - 0x1_0000_0000
    else if a + b < IntMin then a + b + 0x1_0000_0000
    else a + b
  }

  /** A host name and a port, the target of a `new Socket(host, port)`. */
  datatype Endpoint = Endpoint(host: string, port: int)
}
