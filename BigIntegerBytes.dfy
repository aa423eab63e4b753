/**
 * The two conversions of `java.math.BigInteger` that the integer codec
 * depends on: `new BigInteger(byte[])` reads a big-endian two's-complement
 * byte sequence, and `toByteArray()` writes the shortest such sequence.
 */
module BigIntegerBytes {
  import opened Java

  /** 256 to the power `n`. */
  function Pow256(n: nat): (r: nat)
    ensures r >= 1
  {
    if n == 0 then 1 else 256 * Pow256(n - 1)
  }

  /** The unsigned big-endian value of `b`. */
  function Unsigned(b: seq<byte>): (r: nat)
    ensures r < Pow256(|b|)
  {
    if b == [] then 0 else Unsigned(b[..|b| - 1]) * 256 + b[|b| - 1]
  }

  /** The signed (two's-complement) big-endian value of a non-empty `b`. */
  function Signed(b: seq<byte>): (r: int)
    requires |b| > 0
    ensures r < 0 <==> b[0] >= 128
  {
    if |b| == 1 then (if b[0] >= 128 then b[0] - 256 else b[0])
    else Signed(b[..|b| - 1]) * 256 + b[|b| - 1]
  }

  /** `new BigInteger(b)`: a zero-length array is a `NumberFormatException`. */
  function NewBigInteger(b: seq<byte>): (r: Result<int>)
    ensures r.Failure? <==> |b| == 0
    ensures r.Failure? ==> r.error == NumberFormat
    ensures r.Success? ==> r.value == Signed(b)
  {
    if |b| == 0 then Failure(NumberFormat) else Success(Signed(b))
  }

  /** `BigInteger.signum()`. */
  function Signum(v: int): (r: int)
    ensures r == -1 || r == 0 || r == 1
    ensures r < 0 <==> v < 0
    ensures r == 0 <==> v == 0
  {
    if v > 0 then 1 else if v < 0 then -1 else 0
  }

  /**
   * `BigInteger.toByteArray()`: big-endian two's complement with the fewest
   * bytes, and never fewer than one.
   */
  function ToByteArray(v: int): (r: seq<byte>)
    ensures |r| >= 1
    ensures r[0] >= 128 <==> v < 0
    decreases if v >= 0 then v else -v
  {
    if -128 <= v < 128 then [v % 256]
    else ToByteArray(v / 256) + [v % 256]
  }

  /** `new BigInteger(v.toByteArray())` is `v`. */
  lemma {:induction false} ToByteArrayReadsBack(v: int)
    ensures Signed(ToByteArray(v)) == v
    decreases if v >= 0 then v else -v
  {
    if !(-128 <= v < 128) {
      ToByteArrayReadsBack(v / 256);
      SignedSnoc(ToByteArray(v / 256), v % 256);
    }
  }

  /** Reading `b` plus one more byte on the right shifts the value by a byte. */
  lemma SignedSnoc(b: seq<byte>, x: byte)
    requires |b| > 0
    ensures Signed(b + [x]) == Signed(b) * 256 + x
  {
    assert (b + [x])[..|b|] == b;
  }

  /** Only runs of sign bytes read as 0 or -1. */
  lemma {:induction false} SignedZeroOrMinusOne(b: seq<byte>)
    requires |b| > 0
    ensures Signed(b) == 0 ==> b == Fill(|b|, 0x00)
    ensures Signed(b) == -1 ==> b == Fill(|b|, 0xFF)
  {
    if |b| > 1 {
      var pre := b[..|b| - 1];
      SignedZeroOrMinusOne(pre);
      assert b == pre + [b[|b| - 1]];
    }
  }

  /** `e` is its minimal form with sign bytes added on the left. */
  predicate SignExtended(e: seq<byte>)
    requires |e| > 0
  {
    && |ToByteArray(Signed(e))| <= |e|
    && e == Fill(|e| - |ToByteArray(Signed(e))|, SignByte(Signed(e) < 0)) + ToByteArray(Signed(e))
  }

  /** Appending a byte `x` to a value `w` is `w * 256 + x`, and splits back by `/` and `%`. */
  lemma ByteShift(w: int, x: byte)
    ensures (w * 256 + x) / 256 == w && (w * 256 + x) % 256 == x
    ensures w * 256 + x < 0 <==> w < 0
  {
  }

  /** A single byte is its own minimal form. */
  lemma SignExtendedOne(e: seq<byte>)
    requires |e| == 1
    ensures SignExtended(e)
  {
    assert ToByteArray(Signed(e)) == [e[0]];
  }

  /** A value that fits one byte: everything before the last byte is sign bytes. */
  lemma SignExtendedSmall(pre: seq<byte>, x: byte)
    requires |pre| > 0
    requires -128 <= Signed(pre + [x]) < 128
    ensures SignExtended(pre + [x])
  {
    var w := Signed(pre);
    SignedSnoc(pre, x);
    OneByteValue(w, x);
    SignedZeroOrMinusOne(pre);
    assert pre + [x] == Fill(|pre|, SignByte(w < 0)) + [x];
  }

  /** `w * 256 + x` fits one byte only when `w` is 0 or -1, with the same sign. */
  lemma OneByteValue(w: int, x: byte)
    requires -128 <= w * 256 + x < 128
    ensures ToByteArray(w * 256 + x) == [x]
    ensures w == 0 || w == -1
    ensures w * 256 + x < 0 <==> w < 0
  {
    ByteShift(w, x);
  }

  /** A value wider than a byte: its minimal form is that of `w` plus the byte `x`. */
  lemma WideValueGrowsByOneByte(pre: seq<byte>, x: byte)
    requires |pre| > 0
    requires !(-128 <= Signed(pre + [x]) < 128)
    ensures ToByteArray(Signed(pre + [x])) == ToByteArray(Signed(pre)) + [x]
    ensures Signed(pre + [x]) < 0 <==> Signed(pre) < 0
  {
    SignedSnoc(pre, x);
    ByteShift(Signed(pre), x);
  }

  /** Appending after a run of sign bytes keeps the run in front. */
  lemma AppendAfterFill(pre: seq<byte>, k: nat, s: byte, t: seq<byte>, x: byte)
    requires pre == Fill(k, s) + t
    ensures pre + [x] == Fill(k, s) + (t + [x])
  {
  }

  /** A value wider than a byte: the minimal form grows by the last byte. */
  lemma SignExtendedStep(pre: seq<byte>, x: byte)
    requires |pre| > 0 && SignExtended(pre)
    requires !(-128 <= Signed(pre + [x]) < 128)
    ensures SignExtended(pre + [x])
  {
    var t := ToByteArray(Signed(pre));
    WideValueGrowsByOneByte(pre, x);
    AppendAfterFill(pre, |pre| - |t|, SignByte(Signed(pre) < 0), t, x);
  }

  /**
   * Every two's-complement representation `e` of a value is the minimal one,
   * `ToByteArray(Signed(e))`, with sign bytes (0x00 for a non-negative value,
   * 0xFF for a negative one) added on the left.
   */
  lemma {:induction false} MinimalFormIsSignExtended(e: seq<byte>)
    requires |e| > 0
    ensures |ToByteArray(Signed(e))| <= |e|
    ensures e == Fill(|e| - |ToByteArray(Signed(e))|, SignByte(Signed(e) < 0)) + ToByteArray(Signed(e))
  {
    if |e| == 1 {
      SignExtendedOne(e);
    } else {
      var pre, x := e[..|e| - 1], e[|e| - 1];
      assert e == pre + [x];
      if -128 <= Signed(e) < 128 {
        SignExtendedSmall(pre, x);
      } else {
        MinimalFormIsSignExtended(pre);
        SignExtendedStep(pre, x);
      }
    }
  }

  /** `toByteArray()` is the shortest representation of its value. */
  lemma ToByteArrayIsShortest(v: int, e: seq<byte>)
    requires |e| > 0 && Signed(e) == v
    ensures |ToByteArray(v)| <= |e|
  {
    MinimalFormIsSignExtended(e);
  }
}
