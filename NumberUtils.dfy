/**
 * The byte-level helpers of the integer codec (`NumberUtils`): the 4-byte
 * big-endian length tag, reading it back, and re-padding the bytes that
 * `BigInteger` normalisation removed from the left.
 */
module NumberUtils {
  import opened Java
  import opened BigIntegerBytes

  /** `byteArrayFromInt`: the four bytes of `n`, most significant first. */
  function ByteArrayFromInt(n: int32): (r: seq<byte>)
    ensures |r| == 4
    ensures Unsigned(r) == n % TWO_32
    ensures Signed(r) == n
  {
    var b0 := n % 256;
    var b1 := (n / 0x100) % 256;
    var b2 := (n / 0x1_0000) % 256;
    var b3 := (n / 0x100_0000) % 256;
    var r := [b3, b2, b1, b0];
    ByteArrayFromIntValue(n, r);
    r
  }

  lemma ByteArrayFromIntValue(n: int32, r: seq<byte>)
    requires r == [(n / 0x100_0000) % 256, (n / 0x1_0000) % 256, (n / 0x100) % 256, n % 256]
    ensures Unsigned(r) == n % TWO_32 && Signed(r) == n
  {
    var q1, q2, q3 := n / 0x100, n / 0x1_0000, n / 0x100_0000;
    assert n == q1 * 0x100 + n % 256;
    assert q2 == q1 / 0x100 && q1 == q2 * 0x100 + q1 % 256;
    assert q3 == q2 / 0x100 && q2 == q3 * 0x100 + q2 % 256;
    assert q3 == (q3 / 0x100) * 0x100 + q3 % 256;
    assert q3 / 0x100 == 0 || q3 / 0x100 == -1;
    UnsignedFour(r);
  }

  /**
   * The accumulator of the loop in `intFromByteArray` after it has consumed
   * `b`, starting from `seed`. One step is `(result << 8) | (0xff & byte)` on
   * a 32-bit `int`: the shift multiplies by 256 modulo 2^32 and leaves the low
   * byte zero, so the `|` adds the byte.
   */
  function Shifted(seed: int, b: seq<byte>): (r: int)
    requires 0 <= seed < TWO_32
    ensures 0 <= r < TWO_32
  {
    if b == [] then seed else (Shifted(seed, b[..|b| - 1]) * 256 + b[|b| - 1]) % TWO_32
  }

  /**
   * What `intFromByteArray` computes, as written: the accumulator is seeded
   * with the first byte and the loop then consumes every byte, the first one
   * included.
   */
  function IntFromBytesAsWritten(b: seq<byte>): (r: int32)
    requires |b| > 0
    ensures r % TWO_32 == (b[0] * Pow256(|b|) + Unsigned(b)) % TWO_32
  {
    ShiftedValue(b[0], b);
    ToInt32(Shifted(b[0], b))
  }

  /** The evidently intended reading: the low 32 bits of the big-endian value. */
  function BigEndianInt32(b: seq<byte>): (r: int32)
    ensures r % TWO_32 == Unsigned(b) % TWO_32
  {
    ToInt32(Unsigned(b) % TWO_32)
  }

  /** A multiple of 2^32 folded into the accumulator disappears. */
  lemma ModStep(x: int, y: int)
    ensures ((x % TWO_32) * 256 + y) % TWO_32 == (x * 256 + y) % TWO_32
  {
    var q := x / TWO_32;
    assert x == q * TWO_32 + x % TWO_32;
    assert x * 256 + y == ((x % TWO_32) * 256 + y) + (q * 256) * TWO_32;
  }

  /** The big-endian value of four bytes, written out. */
  lemma UnsignedFour(b: seq<byte>)
    requires |b| == 4
    ensures Unsigned(b) == b[0] as int * 0x100_0000 + b[1] as int * 0x1_0000 + b[2] as int * 0x100 + b[3]
    ensures Signed(b) == Unsigned(b) - (if b[0] >= 128 then TWO_32 else 0)
  {
    assert b[..3][..2] == b[..2];
    assert b[..2][..1] == b[..1];
    assert b[..1][..0] == [];
  }

  /** Seeded with zero, the loop reads the low 32 bits of the big-endian value. */
  lemma {:induction false} ShiftedFromZero(b: seq<byte>)
    ensures Shifted(0, b) == Unsigned(b) % TWO_32
  {
    if b != [] {
      var pre := b[..|b| - 1];
      ShiftedFromZero(pre);
      ModStep(Unsigned(pre), b[|b| - 1]);
    }
  }

  /** Ring arithmetic for one step of the accumulator, kept apart from the rest. */
  lemma StepDistributes(seed: int, p: int, u: int, x: int)
    ensures (seed * p + u) * 256 + x == seed * (256 * p) + (u * 256 + x)
  {
  }

  /** The accumulator holds the seed shifted past the bytes, plus their value. */
  lemma {:induction false} ShiftedValue(seed: int, b: seq<byte>)
    requires 0 <= seed < TWO_32
    ensures Shifted(seed, b) == (seed * Pow256(|b|) + Unsigned(b)) % TWO_32
  {
    if b != [] {
      var pre := b[..|b| - 1];
      ShiftedValue(seed, pre);
      ShiftStep(seed, Pow256(|pre|), Unsigned(pre), b[|b| - 1],
                Shifted(seed, pre), Shifted(seed, b), Pow256(|b|), Unsigned(b));
    }
  }

  /** One step of `ShiftedValue`, on plain integers. */
  lemma ShiftStep(seed: int, p: int, u: int, x: int, prev: int, cur: int, p': int, u': int)
    requires prev == (seed * p + u) % TWO_32
    requires cur == (prev * 256 + x) % TWO_32
    requires p' == 256 * p && u' == u * 256 + x
    ensures cur == (seed * p' + u') % TWO_32
  {
    ModStep(seed * p + u, x);
    StepDistributes(seed, p, u, x);
  }

  /** After four bytes, whatever seed there was has been shifted out. */
  lemma ShiftedFourForgetsSeed(seed: int, b: seq<byte>)
    requires 0 <= seed < TWO_32 && |b| == 4
    ensures Shifted(seed, b) == Unsigned(b)
  {
    ShiftedValue(seed, b);
    assert Pow256(4) == TWO_32 by {
      assert Pow256(2) == 0x1_0000;
    }
    var u := Unsigned(b);
    assert (seed * TWO_32 + u) % TWO_32 == u;
  }

  /** From four bytes on, the accumulator does not depend on the seed. */
  lemma {:induction false} ShiftedForgetsSeed(seed: int, b: seq<byte>)
    requires 0 <= seed < TWO_32 && |b| >= 4
    ensures Shifted(seed, b) == Shifted(0, b)
  {
    if |b| == 4 {
      ShiftedFourForgetsSeed(seed, b);
      ShiftedFourForgetsSeed(0, b);
    } else {
      ShiftedForgetsSeed(seed, b[..|b| - 1]);
    }
  }

  /**
   * From four bytes on, the seed of `intFromByteArray` is shifted out of the
   * 32-bit result, so the as-written loop agrees with the intended reading.
   */
  lemma AsWrittenAgreesFromFourBytes(b: seq<byte>)
    requires |b| >= 4
    ensures IntFromBytesAsWritten(b) == BigEndianInt32(b)
  {
    ShiftedForgetsSeed(b[0], b);
    ShiftedFromZero(b);
  }

  /**
   * Below four bytes it does not: the first byte is read twice, so the single
   * byte 0x01 reads as 257 instead of 1.
   */
  lemma AsWrittenReadsFirstByteTwice()
    ensures IntFromBytesAsWritten([0x01]) == 257
    ensures BigEndianInt32([0x01]) == 1
  {
    assert [0x01][..0] == [];
  }

  /** A Java `int` is the two's-complement reading of its own low 32 bits. */
  lemma ToInt32OfResidue(n: int32)
    ensures ToInt32(n % TWO_32) == n
  {
    if n < 0 {
      assert n % TWO_32 == n + TWO_32;
    } else {
      assert n % TWO_32 == n;
    }
  }

  /** `intFromByteArray(byteArrayFromInt(n)) == n`, as written and as intended. */
  lemma IntFromByteArrayInvertsByteArrayFromInt(n: int32)
    ensures IntFromBytesAsWritten(ByteArrayFromInt(n)) == n
    ensures BigEndianInt32(ByteArrayFromInt(n)) == n
  {
    var r := ByteArrayFromInt(n);
    var u := Unsigned(r);
    assert u == n % TWO_32;
    assert u % TWO_32 == u;
    ToInt32OfResidue(n);
    assert BigEndianInt32(r) == ToInt32(u);
    AsWrittenAgreesFromFourBytes(r);
  }

  /**
   * `intFromByteArray`, as written. A null or empty array is an
   * `IllegalArgumentException`.
   */
  method IntFromByteArray(byteArray: array?<byte>) returns (r: Result<int32>)
    ensures byteArray == null || byteArray.Length == 0 <==> r.Failure?
    ensures r.Failure? ==> r.error == IllegalArgument("Cannot convert an empty array into an int")
    ensures r.Success? ==> byteArray != null && 0 < byteArray.Length
                           && r.value == IntFromBytesAsWritten(byteArray[..])
  {
    if byteArray == null || byteArray.Length == 0 {
      return Failure(IllegalArgument("Cannot convert an empty array into an int"));
    }
    var result := byteArray[0];
    var i := 0;
    while i < byteArray.Length
      invariant 0 <= i <= byteArray.Length
      invariant result == Shifted(byteArray[0], byteArray[..i])
    {
      assert byteArray[..i + 1][..i] == byteArray[..i];
      result := (result * 256 + byteArray[i]) % TWO_32;
      i := i + 1;
    }
    assert byteArray[..i] == byteArray[..];
    return Success(ToInt32(result));
  }

  /** The padding byte for a value of the given signum. */
  function PadByte(signum: int): byte
  {
    SignByte(signum < 0)
  }

  /**
   * `processBigIntegerEncryptedByteArray` on the bytes of `byteArray`: an
   * input of at most four bytes is returned as it is; otherwise the last four
   * bytes are the expected size of the rest, which is left-padded with the
   * sign byte up to that size.
   */
  function Processed(byteArray: seq<byte>, signum: int): (r: Result<seq<byte>>)
    ensures |byteArray| <= 4 ==> r == Success(byteArray)
    ensures |byteArray| > 4 ==>
      var prefix := byteArray[..|byteArray| - 4];
      var expected := BigEndianInt32(byteArray[|byteArray| - 4..]);
      && (r.Success? <==> |prefix| <= expected)
      && (r.Failure? ==> r.error == if expected < 0 then NegativeArraySize else IndexOutOfBounds)
      && (r.Success? ==> |r.value| == expected
                         && r.value[expected - |prefix|..] == prefix
                         && forall i :: 0 <= i < expected - |prefix| ==> r.value[i] == PadByte(signum))
  {
    if |byteArray| > 4 then
      var prefix := byteArray[..|byteArray| - 4];
      var expected := BigEndianInt32(byteArray[|byteArray| - 4..]);
      if |prefix| != expected then
        if expected < 0 then Failure(NegativeArraySize)
        else if expected < |prefix| then Failure(IndexOutOfBounds)
        else Success(Fill(expected - |prefix|, PadByte(signum)) + prefix)
      else Success(prefix)
    else Success(byteArray)
  }

  /**
   * The padding branch of `processBigIntegerEncryptedByteArray`: allocates
   * `expectedSize` bytes, fills the first `expectedSize - processed.Length`
   * with the sign byte, then copies `processed` after them. A negative size
   * fails the allocation, a size below `processed.Length` fails the copy.
   */
  method PadToExpectedSize(processed: array<byte>, expectedSize: int32, signum: int32)
    returns (r: Result<array<byte>>)
    ensures r.Success? <==> processed.Length <= expectedSize
    ensures r.Failure? ==> r.error == if expectedSize < 0 then NegativeArraySize else IndexOutOfBounds
    ensures r.Success? ==>
      && fresh(r.value)
      && r.value[..] == Fill(expectedSize - processed.Length, PadByte(signum)) + processed[..]
  {
    var sizeDifference := expectedSize - processed.Length;
    if expectedSize < 0 {
      return Failure(NegativeArraySize);
    }
    var padded := new byte[expectedSize](_ => 0);
    var i := 0;
    while i < sizeDifference
      invariant 0 <= i <= if sizeDifference < 0 then 0 else sizeDifference
      invariant forall k :: 0 <= k < i ==> padded[k] == PadByte(signum)
    {
      padded[i] := if signum >= 0 then 0x00 else 0xFF;
      i := i + 1;
    }
    ghost var filled := padded[..];
    var copied := ArrayCopy(processed, 0, padded, sizeDifference, processed.Length);
    if copied.Fail? {
      return Failure(copied.error);
    }
    assert filled[..sizeDifference] == Fill(sizeDifference, PadByte(signum));
    return Success(padded);
  }

  /**
   * The first steps of `processBigIntegerEncryptedByteArray` on an input of
   * more than four bytes: the last four are copied out and read as the
   * expected size, the others are copied into a new array.
   */
  method SplitSizeTag(byteArray: array<byte>) returns (processed: array<byte>, expectedSize: int32)
    requires byteArray.Length > 4
    ensures fresh(processed) && processed[..] == byteArray[..byteArray.Length - 4]
    ensures expectedSize == BigEndianInt32(byteArray[byteArray.Length - 4..])
  {
    ghost var b := byteArray[..];
    var initialSize := byteArray.Length;
    var sizeBytes := new byte[4](_ => 0);
    var copiedSize := ArrayCopy(byteArray, initialSize - 4, sizeBytes, 0, 4);
    assert sizeBytes[..] == b[initialSize - 4..];
    processed := new byte[initialSize - 4](_ => 0);
    var copiedPrefix := ArrayCopy(byteArray, 0, processed, 0, initialSize - 4);
    assert processed[..] == b[..initialSize - 4];
    var parsed := IntFromByteArray(sizeBytes);
    expectedSize := parsed.value;
    AsWrittenAgreesFromFourBytes(sizeBytes[..]);
  }

  /**
   * `processBigIntegerEncryptedByteArray`, on arrays. The input array is left
   * as it is (the method modifies nothing that already exists) and any
   * result is a newly allocated array holding `Processed`. A null array is a
   * `NullPointerException`.
   */
  method ProcessBigIntegerEncryptedByteArray(byteArray: array?<byte>, signum: int32)
    returns (r: Result<array<byte>>)
    ensures byteArray == null ==> r == Failure(NullPointer)
    ensures byteArray != null ==>
      && (r.Success? <==> Processed(byteArray[..], signum).Success?)
      && (r.Failure? ==> r.error == Processed(byteArray[..], signum).error)
      && (r.Success? ==> fresh(r.value) && r.value[..] == Processed(byteArray[..], signum).value)
  {
    if byteArray == null {
      return Failure(NullPointer);
    }
    if byteArray.Length > 4 {
      var processed, expectedSize := SplitSizeTag(byteArray);
      if processed.Length != expectedSize {
        r := PadToExpectedSize(processed, expectedSize, signum);
        return;
      }
      return Success(processed);
    }
    var copy := new byte[byteArray.Length](i requires 0 <= i < byteArray.Length reads byteArray => byteArray[i]);
    assert copy[..] == byteArray[..];
    return Success(copy);
  }
}
