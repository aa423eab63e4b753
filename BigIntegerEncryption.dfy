/**
 * `StandardPBEBigIntegerEncryptor`: encrypts a `BigInteger` by encrypting
 * its two's-complement bytes with a byte encryptor, appending the 4-byte
 * length of the ciphertext, and reading the whole as a new `BigInteger`.
 * Decryption takes the bytes of the number, uses the length tag to restore
 * the leading bytes that `BigInteger` normalisation dropped, and decrypts.
 */
module BigIntegerEncryption {
  import opened Java
  import opened BigIntegerBytes
  import opened NumberUtils
  import opened ByteEncryptor

  /**
   * The catch clauses of `encrypt` and `decrypt`: initialization and
   * operation-not-possible exceptions pass through, anything else becomes an
   * operation-not-possible exception without detail.
   */
  function Masked(e: Error): (r: Error)
    ensures r == EncryptionInitialization || r == EncryptionOperationNotPossible
    ensures e == EncryptionInitialization || e == EncryptionOperationNotPossible ==> r == e
    ensures e != EncryptionInitialization ==> r == EncryptionOperationNotPossible
  {
    if e == EncryptionInitialization then e else EncryptionOperationNotPossible
  }

  /** The 4-byte length tag appended to a ciphertext `c`. */
  function LengthTagged(c: seq<byte>): (r: seq<byte>)
    requires |c| <= MAX_ARRAY_LENGTH - 4
    ensures |r| == |c| + 4 && r[..|c|] == c
    ensures BigEndianInt32(r[|c|..]) == |c|
  {
    IntFromByteArrayInvertsByteArrayFromInt(|c|);
    c + ByteArrayFromInt(|c|)
  }

  /**
   * The part of `encrypt` after the byte encryptor has run: a null
   * ciphertext, or one too long to take four more bytes in a Java array,
   * fails; otherwise the tagged ciphertext is read as a signed big-endian
   * number.
   */
  function EncryptedNumber(inner: Result<Option<seq<byte>>>): (r: Result<int>)
    ensures r.Failure? ==> r.error == EncryptionInitialization || r.error == EncryptionOperationNotPossible
    ensures inner.Failure? ==> r == Failure(Masked(inner.error))
    ensures r.Success? <==> inner.Success? && inner.value.Some? && |inner.value.value| <= MAX_ARRAY_LENGTH - 4
    ensures r.Success? ==> NewBigInteger(LengthTagged(inner.value.value)) == Success(r.value)
  {
    match inner
    case Failure(e) => Failure(Masked(e))
    case Success(None) => Failure(EncryptionOperationNotPossible)
    case Success(Some(c)) =>
      if |c| > MAX_ARRAY_LENGTH - 4 then Failure(EncryptionOperationNotPossible)
      else Success(Signed(c + ByteArrayFromInt(|c|)))
  }

  /**
   * The part of `decrypt` after the byte encryptor has run: a null or empty
   * plaintext cannot become a `BigInteger`.
   */
  function DecryptedNumber(inner: Result<Option<seq<byte>>>): (r: Result<int>)
    ensures r.Failure? ==> r.error == EncryptionInitialization || r.error == EncryptionOperationNotPossible
    ensures inner.Failure? ==> r == Failure(Masked(inner.error))
    ensures r.Success? <==> inner.Success? && inner.value.Some? && |inner.value.value| > 0
    ensures r.Success? ==> NewBigInteger(inner.value.value) == Success(r.value)
  {
    match inner
    case Failure(e) => Failure(Masked(e))
    case Success(None) => Failure(EncryptionOperationNotPossible)
    case Success(Some(m)) => if |m| == 0 then Failure(EncryptionOperationNotPossible) else Success(Signed(m))
  }

  /**
   * The bytes `decrypt` hands to the byte encryptor for the number `v`: the
   * minimal form of `v` when it has at most four bytes; otherwise that form
   * without its last four bytes, re-padded on the left with the sign byte of
   * `v` (0xFF for a negative number) up to the size the four bytes record.
   */
  function DecodedBytes(v: int): (r: Result<seq<byte>>)
    ensures |ToByteArray(v)| <= 4 ==> r == Success(ToByteArray(v))
    ensures r.Success? && |ToByteArray(v)| > 4 ==>
      var prefix := ToByteArray(v)[..|ToByteArray(v)| - 4];
      && |prefix| <= |r.value|
      && r.value[|r.value| - |prefix|..] == prefix
      && forall i :: 0 <= i < |r.value| - |prefix| ==> r.value[i] == SignByte(v < 0)
  {
    Processed(ToByteArray(v), Signum(v))
  }

  /** `encrypt` of a non-null number, over the byte encryption `enc`. */
  function EncryptNumber(enc: seq<byte> -> Result<Option<seq<byte>>>, message: int): (r: Result<int>)
    ensures r.Failure? ==> r.error == EncryptionInitialization || r.error == EncryptionOperationNotPossible
    ensures r.Success? ==>
      && enc(ToByteArray(message)).Success?
      && enc(ToByteArray(message)).value.Some?
      && |enc(ToByteArray(message)).value.value| <= MAX_ARRAY_LENGTH - 4
      && NewBigInteger(LengthTagged(enc(ToByteArray(message)).value.value)) == Success(r.value)
  {
    EncryptedNumber(enc(ToByteArray(message)))
  }

  /** `decrypt` of a non-null number, over the byte decryption `dec`. */
  function DecryptNumber(dec: seq<byte> -> Result<Option<seq<byte>>>, value: int): (r: Result<int>)
    ensures r.Failure? ==> r.error == EncryptionInitialization || r.error == EncryptionOperationNotPossible
    ensures DecodedBytes(value).Failure? ==> r == Failure(EncryptionOperationNotPossible)
    ensures r.Success? ==>
      && DecodedBytes(value).Success?
      && dec(DecodedBytes(value).value).Success?
      && dec(DecodedBytes(value).value).value.Some?
      && NewBigInteger(dec(DecodedBytes(value).value).value.value) == Success(r.value)
  {
    match DecodedBytes(value)
    case Failure(_) => Failure(EncryptionOperationNotPossible)
    case Success(b) => DecryptedNumber(dec(b))
  }

  /** `c` has a byte other than 0x00. */
  predicate HasNonZeroByte(c: seq<byte>)
  {
    exists i :: 0 <= i < |c| && c[i] != 0
  }

  /** The length tag of a ciphertext is a non-negative four-byte number. */
  lemma LengthTagIsNonNegative(c: seq<byte>)
    requires |c| <= MAX_ARRAY_LENGTH - 4
    ensures Signed(LengthTagged(c)[|c|..]) == |c|
    ensures LengthTagged(c)[|c|] < 128
  {
    var tag := LengthTagged(c)[|c|..];
    assert tag == ByteArrayFromInt(|c|);
  }

  /**
   * Normalising `c + tag`, for a non-negative four-byte `tag`, drops part
   * of the tag only when `c` holds nothing but zero bytes.
   */
  lemma ShortMinimalFormMeansZeroPrefix(c: seq<byte>, tag: seq<byte>)
    requires |tag| == 4 && tag[0] < 128
    ensures |ToByteArray(Signed(c + tag))| <= 4 ==> forall i :: 0 <= i < |c| ==> c[i] == 0
  {
    var e := c + tag;
    var v := Signed(e);
    var b := ToByteArray(v);
    var k := |e| - |b|;
    var s := SignByte(v < 0);
    MinimalFormIsSignExtended(e);
    if |b| <= 4 {
      assert forall i :: 0 <= i < |c| ==> c[i] == e[i] == s;
      if |b| == 4 {
        assert b == e[|c|..] == tag;
        ToByteArrayReadsBack(v);
      } else {
        assert tag[0] == e[|c|] == s;
      }
      assert s == 0;
    }
  }

  /**
   * Normalising `c + tag` to its minimal form keeps all of the tag and at
   * least one byte more, when `c` has a nonzero byte and `tag` is
   * non-negative: the dropped sign bytes all lie inside `c`.
   */
  lemma MinimalFormKeepsTag(c: seq<byte>, tag: seq<byte>)
    requires |tag| == 4 && tag[0] < 128
    requires HasNonZeroByte(c)
    ensures |ToByteArray(Signed(c + tag))| > 4
  {
    ShortMinimalFormMeansZeroPrefix(c, tag);
  }

  /**
   * The integer codec round trip: the bytes `decrypt` recovers from the
   * number that `encrypt` built out of the ciphertext `c` are `c` again,
   * unless `c` consists of zero bytes only.
   */
  lemma DecodeRestoresCiphertext(c: seq<byte>)
    requires |c| <= MAX_ARRAY_LENGTH - 4
    requires HasNonZeroByte(c)
    ensures DecodedBytes(Signed(LengthTagged(c))) == Success(c)
  {
    var e := LengthTagged(c);
    var tag := e[|c|..];
    var v := Signed(e);
    var b := ToByteArray(v);
    var k := |e| - |b|;
    var s := SignByte(v < 0);
    LengthTagIsNonNegative(c);
    assert e == c + tag;
    MinimalFormKeepsTag(c, tag);
    MinimalFormIsSignExtended(e);
    var prefix := b[..|b| - 4];
    assert b == prefix + tag && c == Fill(k, s) + prefix by {
      assert e == Fill(k, s) + b;
      assert b[|b| - 4..] == tag;
    }
    ProcessedPadsBack(k, s, prefix, tag, Signum(v));
  }

  /**
   * The padding branch undoes normalisation: reading `prefix + tag`, where
   * the tag says `k` more bytes than `prefix` has, puts back `k` sign bytes.
   */
  lemma ProcessedPadsBack(k: nat, s: byte, prefix: seq<byte>, tag: seq<byte>, signum: int)
    requires |tag| == 4 && |prefix| > 0
    requires BigEndianInt32(tag) == k + |prefix|
    requires PadByte(signum) == s
    ensures Processed(prefix + tag, signum) == Success(Fill(k, s) + prefix)
  {
    var b := prefix + tag;
    assert b[..|b| - 4] == prefix && b[|b| - 4..] == tag;
    if k == 0 {
      assert Fill(k, s) + prefix == prefix;
    }
  }

  /**
   * The excluded case: when the ciphertext is `k` zero bytes, the number is
   * just the length tag `k`, whose minimal form has at most four bytes and
   * is handed on unpadded, so the byte encryptor receives `ToByteArray(k)`
   * and not the ciphertext.
   */
  lemma AllZeroCiphertextIsNotRestored(k: nat)
    requires k <= MAX_ARRAY_LENGTH - 4
    ensures Signed(LengthTagged(Fill(k, 0x00))) == k
    ensures DecodedBytes(k) == Success(ToByteArray(k))
    ensures ToByteArray(k) != Fill(k, 0x00)
  {
    var c := Fill(k, 0x00);
    var e := LengthTagged(c);
    var tag := e[k..];
    assert Signed(tag) == k by {
      assert tag == ByteArrayFromInt(k);
    }
    SignedZeroOrMinusOne(c + [0]);
    SignedAppend(c, tag);
    var b := ToByteArray(k);
    ToByteArrayIsShortest(k, tag);
    if k > 0 {
      ToByteArrayReadsBack(k);
      SignedZeroAll(c);
      assert Signed(b) != Signed(c);
    } else {
      assert |b| != |c|;
    }
  }

  /** Sign bytes 0x00 on the left do not change a non-negative value. */
  lemma {:induction false} SignedAppend(z: seq<byte>, t: seq<byte>)
    requires |t| > 0 && t[0] < 128
    requires forall i :: 0 <= i < |z| ==> z[i] == 0
    ensures Signed(z + t) == Signed(t)
    decreases |t|
  {
    if |t| == 1 {
      if |z| > 0 {
        assert (z + t)[..|z + t| - 1] == z;
        SignedZeroAll(z);
      }
    } else {
      var tp := t[..|t| - 1];
      SignedAppend(z, tp);
      assert (z + t)[..|z + t| - 1] == z + tp;
    }
  }

  /** A run of zero bytes reads as 0. */
  lemma {:induction false} SignedZeroAll(z: seq<byte>)
    requires |z| > 0
    requires forall i :: 0 <= i < |z| ==> z[i] == 0
    ensures Signed(z) == 0
  {
    if |z| > 1 {
      SignedZeroAll(z[..|z| - 1]);
    }
  }

  /** The byte encryption `enc` is undone by the byte decryption `dec`. */
  ghost predicate ByteRoundTrip(enc: seq<byte> -> Result<Option<seq<byte>>>,
                                dec: seq<byte> -> Result<Option<seq<byte>>>)
  {
    forall m, c :: enc(m) == Success(Some(c)) ==> dec(c) == Success(Some(m))
  }

  /**
   * `decrypt(encrypt(m)) == m` whenever the byte encryptor round-trips and
   * its ciphertext for `m` is not all zero bytes.
   */
  lemma DecryptInvertsEncrypt(enc: seq<byte> -> Result<Option<seq<byte>>>,
                              dec: seq<byte> -> Result<Option<seq<byte>>>, m: int)
    requires ByteRoundTrip(enc, dec)
    requires EncryptNumber(enc, m).Success?
    requires HasNonZeroByte(enc(ToByteArray(m)).value.value)
    ensures DecryptNumber(dec, EncryptNumber(enc, m).value) == Success(m)
  {
    var c := enc(ToByteArray(m)).value.value;
    DecodeRestoresCiphertext(c);
    assert dec(c) == Success(Some(ToByteArray(m)));
    ToByteArrayReadsBack(m);
  }

  /**
   * The encryptor object: it owns one byte encryptor, to which every setter
   * and `initialize` forward their argument unchanged.
   */
  class StandardPBEBigIntegerEncryptor<E> {
    const ops: EngineOps<E>
    var byteEncryptor: E

    constructor(ops: EngineOps<E>)
      ensures this.ops == ops && byteEncryptor == ops.newEngine
    {
      this.ops := ops;
      byteEncryptor := ops.newEngine;
    }

    /** Forwards one setter call to the byte encryptor. */
    method Configure(s: Setting) returns (r: Outcome)
      modifies this
      ensures Configured(ops, old(byteEncryptor), s, byteEncryptor, r)
    {
      var c := ops.configure(byteEncryptor, s);
      match c
      case Success(e) => byteEncryptor := e; r := Pass;
      case Failure(err) => r := Fail(err);
    }

    method SetConfig(config: Option<Instance>) returns (r: Outcome)
      modifies this
      ensures Configured(ops, old(byteEncryptor), ByteEncryptor.SetConfig(config), byteEncryptor, r)
    {
      r := Configure(ByteEncryptor.SetConfig(config));
    }

    method SetAlgorithm(algorithm: Option<string>) returns (r: Outcome)
      modifies this
      ensures Configured(ops, old(byteEncryptor), ByteEncryptor.SetAlgorithm(algorithm), byteEncryptor, r)
    {
      r := Configure(ByteEncryptor.SetAlgorithm(algorithm));
    }

    method SetPassword(password: Option<string>) returns (r: Outcome)
      modifies this
      ensures Configured(ops, old(byteEncryptor), ByteEncryptor.SetPassword(password), byteEncryptor, r)
    {
      r := Configure(ByteEncryptor.SetPassword(password));
    }

    method SetKeyObtentionIterations(iterations: int32) returns (r: Outcome)
      modifies this
      ensures Configured(ops, old(byteEncryptor), ByteEncryptor.SetKeyObtentionIterations(iterations), byteEncryptor, r)
    {
      r := Configure(ByteEncryptor.SetKeyObtentionIterations(iterations));
    }

    method IsInitialized() returns (r: bool)
      ensures r == ops.isInitialized(byteEncryptor)
    {
      r := ops.isInitialized(byteEncryptor);
    }

    method Initialize() returns (r: Outcome)
      modifies this
      ensures Initialized(ops, old(byteEncryptor), byteEncryptor, r)
    {
      var i := ops.initialize(byteEncryptor);
      match i
      case Success(e) => byteEncryptor := e; r := Pass;
      case Failure(err) => r := Fail(err);
    }

    /**
     * `encrypt`: null gives null; otherwise the byte encryptor encrypts the
     * number's bytes and `EncryptedNumber` builds the result.
     */
    method Encrypt(message: Option<int>) returns (r: Result<Option<int>>)
      modifies this
      ensures message.None? ==> r == Success(None) && byteEncryptor == old(byteEncryptor)
      ensures message.Some? ==>
        var step := ops.encrypt(old(byteEncryptor), Some(ToByteArray(message.value)));
        && byteEncryptor == step.engine
        && var n := EncryptedNumber(step.result);
        && (n.Success? ==> r == Success(Some(n.value)))
        && (n.Failure? ==> r == Failure(n.error))
    {
      if message.None? {
        return Success(None);
      }
      var messageBytes := ToByteArray(message.value);
      var step := ops.encrypt(byteEncryptor, Some(messageBytes));
      byteEncryptor := step.engine;
      var n := EncryptedNumber(step.result);
      if n.Failure? {
        return Failure(n.error);
      }
      r := Success(Some(n.value));
    }

    /**
     * `decrypt`: null gives null; otherwise the number's bytes are processed
     * by `processBigIntegerEncryptedByteArray` with the number's signum, and
     * only if that succeeds does the byte encryptor run.
     */
    method Decrypt(encryptedMessage: Option<int>) returns (r: Result<Option<int>>)
      modifies this
      ensures encryptedMessage.None? ==> r == Success(None) && byteEncryptor == old(byteEncryptor)
      ensures encryptedMessage.Some? && DecodedBytes(encryptedMessage.value).Failure? ==>
        r == Failure(EncryptionOperationNotPossible) && byteEncryptor == old(byteEncryptor)
      ensures encryptedMessage.Some? && DecodedBytes(encryptedMessage.value).Success? ==>
        var step := ops.decrypt(old(byteEncryptor), Some(DecodedBytes(encryptedMessage.value).value));
        && byteEncryptor == step.engine
        && var n := DecryptedNumber(step.result);
        && (n.Success? ==> r == Success(Some(n.value)))
        && (n.Failure? ==> r == Failure(n.error))
    {
      if encryptedMessage.None? {
        return Success(None);
      }
      var v := encryptedMessage.value;
      var b := ToByteArray(v);
      var encryptedMessageBytes := new byte[|b|](i requires 0 <= i < |b| => b[i]);
      assert encryptedMessageBytes[..] == b;
      var processed := ProcessBigIntegerEncryptedByteArray(encryptedMessageBytes, Signum(v));
      if processed.Failure? {
        return Failure(EncryptionOperationNotPossible);
      }
      var step := ops.decrypt(byteEncryptor, Some(processed.value[..]));
      byteEncryptor := step.engine;
      var n := DecryptedNumber(step.result);
      if n.Failure? {
        return Failure(n.error);
      }
      r := Success(Some(n.value));
    }
  }
}
