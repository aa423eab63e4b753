/**
 * Java-level building blocks shared by the model: bytes, 32-bit integers,
 * the exception kinds the modelled code raises or propagates, and the
 * success-or-exception wrappers that stand for Java's exceptions.
 */
module Java {

  /** A Java `byte`, seen through `0xff & b`: its unsigned value 0..255. */
  type byte = x: int | 0 <= x < 256

  const TWO_32: int := 0x1_0000_0000
  const INT_MIN: int := -0x8000_0000
  const INT_MAX: int := 0x7FFF_FFFF

  /** A Java `int`. */
  type int32 = x: int | -0x8000_0000 <= x <= 0x7FFF_FFFF

  /** Largest length a Java array can have (an `int` index). */
  const MAX_ARRAY_LENGTH: int := 0x7FFF_FFFF

  /** Reads a 32-bit pattern (0 <= u < 2^32) as a two's-complement Java `int`. */
  function ToInt32(u: int): (r: int32)
    requires 0 <= u < TWO_32
    ensures r % TWO_32 == u
  {
    if u <= INT_MAX then u else u - TWO_32
  }

  /** The sign byte that two's-complement sign extension adds on the left. */
  function SignByte(negative: bool): byte
  {
    if negative then 0xFF else 0x00
  }

  /** The sequence of `n` copies of `b`. */
  function Fill(n: nat, b: byte): (r: seq<byte>)
    ensures |r| == n
    ensures forall i :: 0 <= i < n ==> r[i] == b
  {
    seq(n, _ => b)
  }

  /**
   * An object the model only passes around and compares: a salt generator,
   * a security provider or a configuration object, identified by its class
   * name and an identity.
   */
  datatype Instance = Instance(className: string, identity: nat)

  /** The exception kinds of the modelled code. */
  datatype Error =
    | IllegalArgument(message: string)
    | EncryptionInitialization
    | EncryptionOperationNotPossible
    | AlreadyInitialized
    | PasswordAlreadyCleaned
    | NullPointer
    | NegativeArraySize
    | IndexOutOfBounds
    | StringIndexOutOfBounds
    | NumberFormat
    | UsageAndExit

  /** A value, or the exception that was thrown instead. */
  datatype Result<+T> = Success(value: T) | Failure(error: Error)

  /** A `void` call that either returns normally or throws. */
  datatype Outcome = Pass | Fail(error: Error)

  /** Java `null` or a value. */
  datatype Option<+T> = None | Some(value: T)

  /**
   * `System.arraycopy` for two arrays of the same element type: the bounds
   * are checked first (an `IndexOutOfBoundsException` and nothing written),
   * then `length` elements are copied as if through a temporary buffer.
   */
  method ArrayCopy<T>(src: array<T>, srcPos: int, dest: array<T>, destPos: int, length: int)
    returns (r: Outcome)
    modifies dest
    ensures r.Fail? <==> srcPos < 0 || destPos < 0 || length < 0
                         || srcPos + length > src.Length || destPos + length > dest.Length
    ensures r.Fail? ==> r.error == IndexOutOfBounds && dest[..] == old(dest[..])
    ensures r.Pass? ==> dest[..] == old(dest[..destPos]) + old(src[srcPos..srcPos + length])
                                    + old(dest[destPos + length..])
  {
    if srcPos < 0 || destPos < 0 || length < 0
       || srcPos + length > src.Length || destPos + length > dest.Length {
      return Fail(IndexOutOfBounds);
    }
    ghost var before, from := dest[..], src[..];
    forall i | 0 <= i < length {
      dest[destPos + i] := src[srcPos + i];
    }
    assert dest[..] == before[..destPos] + from[srcPos..srcPos + length] + before[destPos + length..];
    return Pass;
  }
}
