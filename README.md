# jasypt core, modelled in Dafny

This project models four sequential pieces of jasypt, the Java
encryption library, and proves properties of them.

1. **The number codec** (`NumberUtils` and `StandardPBEBigIntegerEncryptor`).
   - `encrypt` turns a number into its minimal two's-complement bytes (`BigInteger.toByteArray()`) and hands them to the inner byte encryptor.
   - It then appends the ciphertext length as four big-endian bytes and reads the whole thing as a signed big-endian `BigInteger`.
   - `decrypt` takes that number's minimal bytes and reads the trailing four-byte length tag.
   - It then puts back, on the left, the 0x00 or 0xFF sign bytes that normalisation removed, and hands the result to the inner byte decryptor.
2. **The encryptor pool** (`PooledStandardPBEByteEncryptor`).
   - An array of engines. Slot 0 is created by the constructor and configured by every setter.
   - The other slots are filled once, by cloning the previous slot.
   - A shared counter hands out slots in round-robin order.
3. **The configuration bean with a cleanable password** (`SimplePBEConfig`, release 1.8).
   - Plain field setters.
   - Setters that parse strings or load classes and fail with an initialization error.
   - A password buffer that is copied in and out, zeroed in place, and guarded by a one-way "cleaned" flag.
4. **The command-line argument reader** (`CLIUtils`, release 1.4).
   - `getVerbosity`.
   - `getArgumentValues`: splits `key=value` at the first `=`, rejects malformed or unknown arguments, strips one pair of quotes, and ends the program when a required group of names is missing.

Modules:

- `Java`: the Java types the model needs.
  - `byte` is the unsigned view `0xff & b`, and `int32` is a 32-bit `int`.
  - Null becomes `Option`, and exceptions become the `Error` cases of a `Result` or `Outcome`.
  - `System.arraycopy` becomes `ArrayCopy`.
- `BigIntegerBytes`: `new BigInteger(byte[])` (`Signed`, `NewBigInteger`) and `toByteArray()` (`ToByteArray`), with the lemmas that relate them.
- `NumberUtils`, `BigIntegerEncryption`, `PooledEncryptor`, `PBEConfig` and `CLIArguments`: one module per Java class.
- `ByteEncryptor`: the inner `StandardPBEByteEncryptor`, whose code is not part of this model.
  - The engine is an abstract type `E`, and `EngineOps<E>` is a record of the calls made on it.
  - A call that changes the engine returns the new engine.

Imperative Java stays imperative:

- the pool and the bean are classes with `modifies` clauses;
- the loops of `intFromByteArray`, the padding step, `initialize`, `cleanPassword`, `getVerbosity` and `getArgumentValues` are `while` loops;
- each of those loops is proved against a specification function, and the properties are proved about those functions.

## Model

| member | source | states |
|---|---|---|
| Java.ArrayCopy | trunk/jasypt/src/main/java/org/jasypt/encryption/pbe/NumberUtils.java:95 | `System.arraycopy`: fails with an index error, leaving `dest` as it was, exactly when a position or the length is negative or a range runs past an array end; otherwise `dest` is its old prefix, then the copied source range, then its old suffix |
| BigIntegerBytes.NewBigInteger | trunk/jasypt/src/main/java/org/jasypt/encryption/pbe/StandardPBEBigIntegerEncryptor.java:356 | `new BigInteger(byte[])`: fails with a number-format error exactly on an empty array; otherwise it is the signed big-endian value |
| BigIntegerBytes.Signum | trunk/jasypt/src/main/java/org/jasypt/encryption/pbe/StandardPBEBigIntegerEncryptor.java:409 | `signum()` is -1, 0 or 1, negative exactly for a negative value and 0 exactly for 0 |
| BigIntegerBytes.ToByteArrayReadsBack | trunk/jasypt/src/main/java/org/jasypt/encryption/pbe/StandardPBEBigIntegerEncryptor.java:337 | reading the bytes of `toByteArray()` back with `new BigInteger` gives the value again |
| BigIntegerBytes.Signed | trunk/jasypt/src/main/java/org/jasypt/encryption/pbe/StandardPBEBigIntegerEncryptor.java:356 | `new BigInteger(byte[])`: the value is negative exactly when the top bit of the first byte is set |
| BigIntegerBytes.ToByteArray | trunk/jasypt/src/main/java/org/jasypt/encryption/pbe/StandardPBEBigIntegerEncryptor.java:337 | `toByteArray`: at least one byte, and the top bit of the first byte is set exactly when the number is negative |
| BigIntegerBytes.SignedZeroOrMinusOne | trunk/jasypt/src/main/java/org/jasypt/encryption/pbe/NumberUtils.java:81-83 | only a run of 0x00 bytes reads as 0, and only a run of 0xFF bytes reads as -1 |
| BigIntegerBytes.MinimalFormIsSignExtended | trunk/jasypt/src/main/java/org/jasypt/encryption/pbe/NumberUtils.java:76-97 | every representation of a value is its `toByteArray()` form with sign bytes (0x00 for non-negative, 0xFF for negative) prepended, so that form is never longer |
| BigIntegerBytes.ToByteArrayIsShortest | trunk/jasypt/src/main/java/org/jasypt/encryption/pbe/StandardPBEBigIntegerEncryptor.java:404 | no byte sequence reading as `v` is shorter than `toByteArray()` of `v` |
| NumberUtils.ByteArrayFromInt | trunk/jasypt/src/main/java/org/jasypt/encryption/pbe/NumberUtils.java:36-42 | exactly four bytes, most significant first: their unsigned value is `n` mod 2^32 and their signed value is `n` |
| NumberUtils.IntFromByteArray | trunk/jasypt/src/main/java/org/jasypt/encryption/pbe/NumberUtils.java:45-56 | fails with "Cannot convert an empty array into an int" exactly on a null or empty array; otherwise returns the loop's value as written, seed included |
| NumberUtils.IntFromBytesAsWritten | trunk/jasypt/src/main/java/org/jasypt/encryption/pbe/NumberUtils.java:51-55 | `intFromByteArray` as written: the result agrees modulo 2^32 with the first byte times 256^n plus the big-endian value of all n bytes |
| NumberUtils.ShiftedValue | trunk/jasypt/src/main/java/org/jasypt/encryption/pbe/NumberUtils.java:51-54 | after the loop consumes `b` from a seed, the accumulator is (seed * 256^\|b\| + the big-endian value of `b`) mod 2^32 |
| NumberUtils.ShiftedFromZero | trunk/jasypt/src/main/java/org/jasypt/encryption/pbe/NumberUtils.java:52-54 | seeded with zero, the loop yields the low 32 bits of the big-endian value |
| NumberUtils.ShiftedForgetsSeed | trunk/jasypt/src/main/java/org/jasypt/encryption/pbe/NumberUtils.java:51-54 | from four bytes on, the result does not depend on the seed |
| NumberUtils.AsWrittenAgreesFromFourBytes | trunk/jasypt/src/main/java/org/jasypt/encryption/pbe/NumberUtils.java:51-55 | on four or more bytes, the as-written reading equals the intended big-endian 32-bit reading |
| NumberUtils.AsWrittenReadsFirstByteTwice | trunk/jasypt/src/main/java/org/jasypt/encryption/pbe/NumberUtils.java:51 | the one-byte array [0x01] reads as 257 as written, but as 1 under the intended reading |
| NumberUtils.BigEndianInt32 | trunk/jasypt/src/main/java/org/jasypt/encryption/pbe/NumberUtils.java:45-56 | the intended reading: the low 32 bits of the big-endian value, as a signed `int` |
| NumberUtils.UnsignedFour | trunk/jasypt/src/main/java/org/jasypt/encryption/pbe/NumberUtils.java:53 | four bytes weigh 2^24, 2^16, 2^8 and 1, and their signed value is the unsigned one minus 2^32 when the top bit is set |
| NumberUtils.IntFromByteArrayInvertsByteArrayFromInt | trunk/jasypt/src/main/java/org/jasypt/encryption/pbe/NumberUtils.java:36-56 | for every 32-bit `n`, both the as-written and the intended reading of `byteArrayFromInt(n)` give `n` |
| NumberUtils.Processed | trunk/jasypt/src/main/java/org/jasypt/encryption/pbe/NumberUtils.java:59-107 | four bytes or fewer come back unchanged. Otherwise the last four bytes give the expected size. The call succeeds exactly when the prefix fits that size. It fails with a negative-size error for a negative size and an index error for a too-small one. On success the result has the expected size, the prefix on the right and sign bytes on the left |
| NumberUtils.PadToExpectedSize | trunk/jasypt/src/main/java/org/jasypt/encryption/pbe/NumberUtils.java:79-97 | succeeds exactly when the prefix fits, failing as `new byte[n]` or `arraycopy` would; on success a fresh array of sign bytes followed by the prefix |
| NumberUtils.SplitSizeTag | trunk/jasypt/src/main/java/org/jasypt/encryption/pbe/NumberUtils.java:65-74 | a fresh copy of all but the last four bytes, and the size read from those four bytes |
| NumberUtils.ProcessBigIntegerEncryptedByteArray | trunk/jasypt/src/main/java/org/jasypt/encryption/pbe/NumberUtils.java:59-107 | a null input gives a null-pointer error; otherwise the outcome is `Processed` of the input, and any result is a fresh array |
| BigIntegerEncryption.Masked | trunk/jasypt/src/main/java/org/jasypt/encryption/pbe/StandardPBEBigIntegerEncryptor.java:358-366 | initialization and operation-not-possible errors pass unchanged; every other error becomes operation-not-possible |
| BigIntegerEncryption.LengthTagged | trunk/jasypt/src/main/java/org/jasypt/encryption/pbe/StandardPBEBigIntegerEncryptor.java:347-353 | the ciphertext followed by four bytes whose big-endian reading is its length |
| BigIntegerEncryption.EncryptedNumber | trunk/jasypt/src/main/java/org/jasypt/encryption/pbe/StandardPBEBigIntegerEncryptor.java:340-366 | succeeds exactly when the inner encryptor returns a non-null ciphertext of at most 2^31-5 bytes (a longer one overflows the int size of `ArrayUtils.addAll` and is masked as operation-not-possible), and then the number is `new BigInteger` of the length-tagged ciphertext; an error is masked |
| BigIntegerEncryption.DecryptedNumber | trunk/jasypt/src/main/java/org/jasypt/encryption/pbe/StandardPBEBigIntegerEncryptor.java:412-425 | succeeds exactly when the inner decryptor returns a non-empty array, and then the number is `new BigInteger` of it; errors are masked, and an empty array becomes operation-not-possible |
| BigIntegerEncryption.DecodedBytes | trunk/jasypt/src/main/java/org/jasypt/encryption/pbe/StandardPBEBigIntegerEncryptor.java:404-409 | short minimal forms pass unchanged; a longer form that is processed keeps its bytes before the length tag at the end and fills everything in front with the sign byte |
| BigIntegerEncryption.EncryptNumber | trunk/jasypt/src/main/java/org/jasypt/encryption/pbe/StandardPBEBigIntegerEncryptor.java:328-368 | on success the number is `new BigInteger(c ++ byteArrayFromInt(\|c\|))` for the inner ciphertext `c` of `toByteArray(m)`; failures are only the two exported errors |
| BigIntegerEncryption.DecryptNumber | trunk/jasypt/src/main/java/org/jasypt/encryption/pbe/StandardPBEBigIntegerEncryptor.java:395-427 | a failed re-padding becomes operation-not-possible; on success the inner decryptor was given the re-padded bytes of the number and the result reads its output |
| BigIntegerEncryption.LengthTagIsNonNegative | trunk/jasypt/src/main/java/org/jasypt/encryption/pbe/StandardPBEBigIntegerEncryptor.java:347-348 | the length tag reads as the length and its top bit is clear |
| BigIntegerEncryption.ShortMinimalFormMeansZeroPrefix | trunk/jasypt/src/main/java/org/jasypt/encryption/pbe/NumberUtils.java:63 | normalising a ciphertext with a non-negative tag leaves four bytes or fewer only when the ciphertext is all zero bytes |
| BigIntegerEncryption.MinimalFormKeepsTag | trunk/jasypt/src/main/java/org/jasypt/encryption/pbe/NumberUtils.java:63-74 | for a ciphertext with a nonzero byte, the minimal form keeps the whole tag and at least one more byte |
| BigIntegerEncryption.ProcessedPadsBack | trunk/jasypt/src/main/java/org/jasypt/encryption/pbe/NumberUtils.java:79-97 | when the tag records `k` more bytes than the prefix has, re-padding puts back exactly `k` sign bytes |
| BigIntegerEncryption.DecodeRestoresCiphertext | trunk/jasypt/src/main/java/org/jasypt/encryption/pbe/NumberUtils.java:59-101 | the codec round trip: re-padding the minimal form of the tagged number gives back the ciphertext exactly, unless it is all zero bytes |
| BigIntegerEncryption.AllZeroCiphertextIsNotRestored | trunk/jasypt/src/main/java/org/jasypt/encryption/pbe/NumberUtils.java:63-105 | for an all-zero ciphertext of `k` bytes the number is `k`; the decoder passes on `toByteArray(k)` unpadded, which differs from the ciphertext |
| BigIntegerEncryption.SignedAppend | trunk/jasypt/src/main/java/org/jasypt/encryption/pbe/StandardPBEBigIntegerEncryptor.java:356 | 0x00 bytes on the left do not change a non-negative value |
| BigIntegerEncryption.SignedZeroAll | trunk/jasypt/src/main/java/org/jasypt/encryption/pbe/StandardPBEBigIntegerEncryptor.java:356 | a run of zero bytes reads as 0 |
| BigIntegerEncryption.DecryptInvertsEncrypt | trunk/jasypt/src/main/java/org/jasypt/encryption/pbe/StandardPBEBigIntegerEncryptor.java:337-415 | `decrypt(encrypt(m)) == m` whenever the inner pair round-trips and the inner ciphertext has a nonzero byte |
| BigIntegerEncryption.StandardPBEBigIntegerEncryptor.constructor | trunk/jasypt/src/main/java/org/jasypt/encryption/pbe/StandardPBEBigIntegerEncryptor.java:133-136 | the wrapped byte encryptor is a new engine |
| BigIntegerEncryption.StandardPBEBigIntegerEncryptor.Configure | trunk/jasypt/src/main/java/org/jasypt/encryption/pbe/StandardPBEBigIntegerEncryptor.java:161-220 | a setter is forwarded unchanged; the engine is replaced on success and kept on an exception |
| BigIntegerEncryption.StandardPBEBigIntegerEncryptor.SetConfig | trunk/jasypt/src/main/java/org/jasypt/encryption/pbe/StandardPBEBigIntegerEncryptor.java:161-163 | `setConfig` is forwarded to the byte encryptor |
| BigIntegerEncryption.StandardPBEBigIntegerEncryptor.SetAlgorithm | trunk/jasypt/src/main/java/org/jasypt/encryption/pbe/StandardPBEBigIntegerEncryptor.java:181-183 | `setAlgorithm` is forwarded to the byte encryptor |
| BigIntegerEncryption.StandardPBEBigIntegerEncryptor.SetPassword | trunk/jasypt/src/main/java/org/jasypt/encryption/pbe/StandardPBEBigIntegerEncryptor.java:200-202 | `setPassword` is forwarded to the byte encryptor |
| BigIntegerEncryption.StandardPBEBigIntegerEncryptor.SetKeyObtentionIterations | trunk/jasypt/src/main/java/org/jasypt/encryption/pbe/StandardPBEBigIntegerEncryptor.java:218-220 | `setKeyObtentionIterations` is forwarded to the byte encryptor |
| BigIntegerEncryption.StandardPBEBigIntegerEncryptor.IsInitialized | trunk/jasypt/src/main/java/org/jasypt/encryption/pbe/StandardPBEBigIntegerEncryptor.java:244-246 | the byte encryptor's answer |
| BigIntegerEncryption.StandardPBEBigIntegerEncryptor.Initialize | trunk/jasypt/src/main/java/org/jasypt/encryption/pbe/StandardPBEBigIntegerEncryptor.java:281-283 | `initialize` is forwarded; the engine is replaced on success and kept on an exception |
| BigIntegerEncryption.StandardPBEBigIntegerEncryptor.Encrypt | trunk/jasypt/src/main/java/org/jasypt/encryption/pbe/StandardPBEBigIntegerEncryptor.java:328-368 | null gives null with nothing changed; otherwise the inner encryptor runs on `toByteArray(m)` and the result is `EncryptedNumber` of its output |
| BigIntegerEncryption.StandardPBEBigIntegerEncryptor.Decrypt | trunk/jasypt/src/main/java/org/jasypt/encryption/pbe/StandardPBEBigIntegerEncryptor.java:395-427 | null gives null; a failed re-padding gives operation-not-possible with nothing changed; otherwise the inner decryptor runs on the re-padded bytes, padded according to the number's signum, and the result is `DecryptedNumber` of its output |
| PooledEncryptor.FillFrom | trunk/jasypt/src/main/java/org/jasypt/encryption/pbe/PooledStandardPBEByteEncryptor.java:301-303 | the clone loop keeps the pool size and leaves the slots before its start untouched |
| PooledEncryptor.FillFromFillsEverySlot | trunk/jasypt/src/main/java/org/jasypt/encryption/pbe/PooledStandardPBEByteEncryptor.java:301-305 | when no clone fails, every slot from the start on holds an engine |
| PooledEncryptor.FillFromCopiesFirstSlot | trunk/jasypt/src/main/java/org/jasypt/encryption/pbe/PooledStandardPBEByteEncryptor.java:301-303 | with a clone that copies exactly, it never fails and every slot from the start on equals the slot before it |
| PooledEncryptor.WindowVisitsEachSlotOnce | trunk/jasypt/src/main/java/org/jasypt/encryption/pbe/PooledStandardPBEByteEncryptor.java:355-401 | any `poolSize` consecutive calls are served by the slots in cyclic order, so every slot exactly once |
| PooledEncryptor.PooledStandardPBEByteEncryptor.constructor | trunk/jasypt/src/main/java/org/jasypt/encryption/pbe/PooledStandardPBEByteEncryptor.java:74-82 | `poolSize` slots with only slot 0 filled, counter 0 and not initialized |
| PooledEncryptor.PooledStandardPBEByteEncryptor.Create | trunk/jasypt/src/main/java/org/jasypt/encryption/pbe/PooledStandardPBEByteEncryptor.java:74-82 | rejects `poolSize < 1` with "Pool size must be > 0"; otherwise it is the constructor |
| PooledEncryptor.PooledStandardPBEByteEncryptor.Configure | trunk/jasypt/src/main/java/org/jasypt/encryption/pbe/PooledStandardPBEByteEncryptor.java:110-235 | a setter changes slot 0 only, as the engine's setter does; the other slots are untouched |
| PooledEncryptor.PooledStandardPBEByteEncryptor.SetConfig | trunk/jasypt/src/main/java/org/jasypt/encryption/pbe/PooledStandardPBEByteEncryptor.java:110-112 | forwarded to slot 0; the other slots are untouched |
| PooledEncryptor.PooledStandardPBEByteEncryptor.SetAlgorithm | trunk/jasypt/src/main/java/org/jasypt/encryption/pbe/PooledStandardPBEByteEncryptor.java:129-131 | forwarded to slot 0; the other slots are untouched |
| PooledEncryptor.PooledStandardPBEByteEncryptor.SetPassword | trunk/jasypt/src/main/java/org/jasypt/encryption/pbe/PooledStandardPBEByteEncryptor.java:148-150 | forwarded to slot 0; the other slots are untouched |
| PooledEncryptor.PooledStandardPBEByteEncryptor.SetKeyObtentionIterations | trunk/jasypt/src/main/java/org/jasypt/encryption/pbe/PooledStandardPBEByteEncryptor.java:166-169 | forwarded to slot 0; the other slots are untouched |
| PooledEncryptor.PooledStandardPBEByteEncryptor.SetSaltGenerator | trunk/jasypt/src/main/java/org/jasypt/encryption/pbe/PooledStandardPBEByteEncryptor.java:180-182 | forwarded to slot 0; the other slots are untouched |
| PooledEncryptor.PooledStandardPBEByteEncryptor.SetProviderName | trunk/jasypt/src/main/java/org/jasypt/encryption/pbe/PooledStandardPBEByteEncryptor.java:210-212 | forwarded to slot 0; the other slots are untouched |
| PooledEncryptor.PooledStandardPBEByteEncryptor.SetProvider | trunk/jasypt/src/main/java/org/jasypt/encryption/pbe/PooledStandardPBEByteEncryptor.java:233-235 | forwarded to slot 0; the other slots are untouched |
| PooledEncryptor.PooledStandardPBEByteEncryptor.IsInitialized | trunk/jasypt/src/main/java/org/jasypt/encryption/pbe/PooledStandardPBEByteEncryptor.java:260-262 | the `initialized` flag |
| PooledEncryptor.PooledStandardPBEByteEncryptor.Initialize | trunk/jasypt/src/main/java/org/jasypt/encryption/pbe/PooledStandardPBEByteEncryptor.java:296-309 | once initialized, nothing changes. Otherwise the pool becomes the result of the clone loop, and the flag is set exactly when no clone failed. The counter is untouched |
| PooledEncryptor.PooledStandardPBEByteEncryptor.Serve | trunk/jasypt/src/main/java/org/jasypt/encryption/pbe/PooledStandardPBEByteEncryptor.java:348-360 | initialize if needed, then run on slot `roundRobin`, store its new engine and advance the counter modulo `poolSize`. A failed initialization is returned with the counter unchanged. `initialized` never goes back to false |
| PooledEncryptor.PooledStandardPBEByteEncryptor.Claim | trunk/jasypt/src/main/java/org/jasypt/encryption/pbe/PooledStandardPBEByteEncryptor.java:355-360 | takes slot `roundRobin`, advances the counter modulo `poolSize` and records the slot served |
| PooledEncryptor.PooledStandardPBEByteEncryptor.Encrypt | trunk/jasypt/src/main/java/org/jasypt/encryption/pbe/PooledStandardPBEByteEncryptor.java:346-362 | `Serve` with the engine's `encrypt` |
| PooledEncryptor.PooledStandardPBEByteEncryptor.Decrypt | trunk/jasypt/src/main/java/org/jasypt/encryption/pbe/PooledStandardPBEByteEncryptor.java:389-405 | `Serve` with the engine's `decrypt`, on the same counter |
| PBEConfig.ParseInt | tags/jasypt/jasypt-1_8/jasypt/src/main/java/org/jasypt/encryption/pbe/config/SimplePBEConfig.java:197 | `new Integer(String)`: the empty string fails. A result means the string is digits, optionally after one sign followed by at least one digit. A negative result needs a leading `-` |
| PBEConfig.ParseIntOfDigits | tags/jasypt/jasypt-1_8/jasypt/src/main/java/org/jasypt/encryption/pbe/config/SimplePBEConfig.java:194-204 | for a non-empty run of digits: it and `+` before it parse to its value when that is at most 2^31-1, and `-` before it parses to the negated value when that is at least -2^31; otherwise parsing fails |
| PBEConfig.Digits | tags/jasypt/jasypt-1_8/jasypt/src/main/java/org/jasypt/encryption/pbe/config/SimplePBEConfig.java:197 | the decimal digits of a natural number: non-empty and all digits |
| PBEConfig.DigitsValueOfDigits | tags/jasypt/jasypt-1_8/jasypt/src/main/java/org/jasypt/encryption/pbe/config/SimplePBEConfig.java:197 | reading the decimal digits of `n` gives `n` |
| PBEConfig.ParseIntInvertsDecimalString | tags/jasypt/jasypt-1_8/jasypt/src/main/java/org/jasypt/encryption/pbe/config/SimplePBEConfig.java:194-204 | every 32-bit `int` written in decimal parses back to itself |
| PBEConfig.SimplePBEConfig.constructor | tags/jasypt/jasypt-1_8/jasypt/src/main/java/org/jasypt/encryption/pbe/config/SimplePBEConfig.java:69-87 | every field is null and the password is not cleaned |
| PBEConfig.SimplePBEConfig.SetAlgorithm | tags/jasypt/jasypt-1_8/jasypt/src/main/java/org/jasypt/encryption/pbe/config/SimplePBEConfig.java:105-107 | sets the algorithm; nothing else changes |
| PBEConfig.SimplePBEConfig.CleanPassword | tags/jasypt/jasypt-1_8/jasypt/src/main/java/org/jasypt/encryption/pbe/config/SimplePBEConfig.java:463-472 | every stored char is overwritten with 0, a stored buffer is replaced by a fresh empty array, and the flag is set, even with no password; nothing else changes |
| PBEConfig.SimplePBEConfig.SetPassword | tags/jasypt/jasypt-1_8/jasypt/src/main/java/org/jasypt/encryption/pbe/config/SimplePBEConfig.java:119-129 | an existing buffer is cleaned first, which sets the flag for good; then the password is a fresh copy of the string, or null |
| PBEConfig.SimplePBEConfig.SetPasswordCharArray | tags/jasypt/jasypt-1_8/jasypt/src/main/java/org/jasypt/encryption/pbe/config/SimplePBEConfig.java:155-166 | the same, storing a fresh copy of the caller's array (all zeros when the caller passed the stored buffer itself) |
| PBEConfig.SimplePBEConfig.SetKeyObtentionIterations | tags/jasypt/jasypt-1_8/jasypt/src/main/java/org/jasypt/encryption/pbe/config/SimplePBEConfig.java:178-180 | sets the iteration count; nothing else changes |
| PBEConfig.SimplePBEConfig.SetKeyObtentionIterationsString | tags/jasypt/jasypt-1_8/jasypt/src/main/java/org/jasypt/encryption/pbe/config/SimplePBEConfig.java:194-204 | null clears the field; a numeric string stores its value; any other string fails with an initialization error and leaves the field as it was |
| PBEConfig.SimplePBEConfig.SetSaltGenerator | tags/jasypt/jasypt-1_8/jasypt/src/main/java/org/jasypt/encryption/pbe/config/SimplePBEConfig.java:220-222 | sets the salt generator; nothing else changes |
| PBEConfig.SimplePBEConfig.SetSaltGeneratorClassName | tags/jasypt/jasypt-1_8/jasypt/src/main/java/org/jasypt/encryption/pbe/config/SimplePBEConfig.java:240-253 | null clears the field; a loadable class stores its instance; otherwise fails with an initialization error and leaves the field |
| PBEConfig.SimplePBEConfig.SetProviderName | tags/jasypt/jasypt-1_8/jasypt/src/main/java/org/jasypt/encryption/pbe/config/SimplePBEConfig.java:277-279 | sets the provider name; nothing else changes |
| PBEConfig.SimplePBEConfig.SetProvider | tags/jasypt/jasypt-1_8/jasypt/src/main/java/org/jasypt/encryption/pbe/config/SimplePBEConfig.java:309-311 | sets the provider; nothing else changes |
| PBEConfig.SimplePBEConfig.SetProviderClassName | tags/jasypt/jasypt-1_8/jasypt/src/main/java/org/jasypt/encryption/pbe/config/SimplePBEConfig.java:340-352 | writes the same provider field: null clears it, a loadable class stores its instance, and otherwise it fails with an initialization error and leaves the field |
| PBEConfig.SimplePBEConfig.SetPoolSize | tags/jasypt/jasypt-1_8/jasypt/src/main/java/org/jasypt/encryption/pbe/config/SimplePBEConfig.java:377-379 | sets the pool size; nothing else changes |
| PBEConfig.SimplePBEConfig.SetPoolSizeString | tags/jasypt/jasypt-1_8/jasypt/src/main/java/org/jasypt/encryption/pbe/config/SimplePBEConfig.java:401-411 | null clears the field; a numeric string stores its value; any other string fails with an initialization error and leaves the field |
| PBEConfig.SimplePBEConfig.GetPassword | tags/jasypt/jasypt-1_8/jasypt/src/main/java/org/jasypt/encryption/pbe/config/SimplePBEConfig.java:422-427 | fails with password-already-cleaned once cleaned, with a null-pointer error when no password was set, and otherwise returns the password |
| PBEConfig.SimplePBEConfig.GetPasswordCharArray | tags/jasypt/jasypt-1_8/jasypt/src/main/java/org/jasypt/encryption/pbe/config/SimplePBEConfig.java:430-437 | the same failures; otherwise a fresh copy of the stored buffer |
| CLIArguments.IndexOf | RELEASE-1_4/jasypt/src/main/java/org/jasypt/intf/cli/CLIUtils.java:138 | the first position of the character, or -1 when it does not occur |
| CLIArguments.Key | RELEASE-1_4/jasypt/src/main/java/org/jasypt/intf/cli/CLIUtils.java:167 | `substringBefore(s, "=")`: never longer than the argument; its shape is the next lemma |
| CLIArguments.KeyIsPrefixBeforeFirstEquals | RELEASE-1_4/jasypt/src/main/java/org/jasypt/intf/cli/CLIUtils.java:167 | the key holds no `=`, is a prefix of the argument, and is either all of it or ends where the first `=` stands |
| CLIArguments.Value | RELEASE-1_4/jasypt/src/main/java/org/jasypt/intf/cli/CLIUtils.java:168 | `substringAfter(s, "=")`: empty when the argument has no `=` |
| CLIArguments.KeyAndValueRebuildArgument | RELEASE-1_4/jasypt/src/main/java/org/jasypt/intf/cli/CLIUtils.java:167-168 | an argument with `=` is its key, then `=`, then its value (which may hold further `=`) |
| CLIArguments.EqualsIgnoreCaseLowered | RELEASE-1_4/jasypt/src/main/java/org/jasypt/intf/cli/CLIUtils.java:145 | against a lower-case word, comparing without case is comparing the lower-cased value |
| CLIArguments.ToBooleanMeansTrueOnOrYes | RELEASE-1_4/jasypt/src/main/java/org/jasypt/intf/cli/CLIUtils.java:145 | `toBoolean` is true exactly when the value, lower-cased, is "true", "on" or "yes" |
| CLIArguments.Verbosity | RELEASE-1_4/jasypt/src/main/java/org/jasypt/intf/cli/CLIUtils.java:136-148 | verbosity is off only when some argument with key `verbose` and a non-empty value has a value that is not true |
| CLIArguments.VerbosityDefaultsToTrue | RELEASE-1_4/jasypt/src/main/java/org/jasypt/intf/cli/CLIUtils.java:136-148 | with no argument having key `verbose` and a non-empty value, verbosity is on |
| CLIArguments.FirstVerbosityArgumentDecides | RELEASE-1_4/jasypt/src/main/java/org/jasypt/intf/cli/CLIUtils.java:136-148 | otherwise the first such argument decides it, through `toBoolean` of its value |
| CLIArguments.GetVerbosity | RELEASE-1_4/jasypt/src/main/java/org/jasypt/intf/cli/CLIUtils.java:136-148 | the loop with its early return computes that verbosity |
| CLIArguments.Names | RELEASE-1_4/jasypt/src/main/java/org/jasypt/intf/cli/CLIUtils.java:157-163 | exactly the names of the required and optional groups |
| CLIArguments.Unquoted | RELEASE-1_4/jasypt/src/main/java/org/jasypt/intf/cli/CLIUtils.java:173-179 | a lone `"` fails with a string-index error. A value that starts and ends with `"` loses two characters; any other value is kept |
| CLIArguments.UnquotedRequotes | RELEASE-1_4/jasypt/src/main/java/org/jasypt/intf/cli/CLIUtils.java:173-176 | a quoted value is its unquoted form with one `"` put back on each side |
| CLIArguments.ArgumentError | RELEASE-1_4/jasypt/src/main/java/org/jasypt/intf/cli/CLIUtils.java:169-182 | an argument yields an exception exactly when the loop rejects it: a missing key or value, an unknown key, or a value that is a lone `"` |
| CLIArguments.FirstWhere | RELEASE-1_4/jasypt/src/main/java/org/jasypt/intf/cli/CLIUtils.java:166-183 | the position of the first element satisfying a condition: it satisfies it and none before does; none found means no element does |
| CLIArguments.FirstError | RELEASE-1_4/jasypt/src/main/java/org/jasypt/intf/cli/CLIUtils.java:166-183 | the position of the first argument the loop throws at: in range and rejected, with every argument before it fine; none means every argument is fine |
| CLIArguments.Collect | RELEASE-1_4/jasypt/src/main/java/org/jasypt/intf/cli/CLIUtils.java:166-183 | on success the earlier keys are kept, every added key is an allowed name, and no argument was rejected. A failure is "Bad argument: " plus an argument, or the string-index error |
| CLIArguments.CollectFailsAtFirstError | RELEASE-1_4/jasypt/src/main/java/org/jasypt/intf/cli/CLIUtils.java:166-183 | the loop fails exactly when some argument is erroneous, and the exception is the one of the first such argument |
| CLIArguments.CollectKeysComeFromArguments | RELEASE-1_4/jasypt/src/main/java/org/jasypt/intf/cli/CLIUtils.java:174-178 | every key the loop adds is the key of some argument |
| CLIArguments.ArgumentValues | RELEASE-1_4/jasypt/src/main/java/org/jasypt/intf/cli/CLIUtils.java:154-200 | on success every key is an allowed name taken from some argument, and every required group has a member present. It succeeds exactly when the argument loop succeeds and every required group is present, and then returns the loop's map. With an erroneous argument the first one decides the exception; with none, a failure is the usage-and-exit |
| CLIArguments.CollectKeepsOtherKeys | RELEASE-1_4/jasypt/src/main/java/org/jasypt/intf/cli/CLIUtils.java:166-183 | a key no argument mentions keeps its earlier value |
| CLIArguments.LastOccurrenceWins | RELEASE-1_4/jasypt/src/main/java/org/jasypt/intf/cli/CLIUtils.java:174-178 | a repeated key ends up with the unquoted value of its last occurrence |
| CLIArguments.ArgumentValuesKeepLastOccurrence | RELEASE-1_4/jasypt/src/main/java/org/jasypt/intf/cli/CLIUtils.java:174-200 | in the map `getArgumentValues` returns, a repeated key holds the unquoted value of its last occurrence |
| CLIArguments.MissingGroupExits | RELEASE-1_4/jasypt/src/main/java/org/jasypt/intf/cli/CLIUtils.java:186-197 | a required group with no member present ends in usage-and-exit |
| CLIArguments.AllowedNames | RELEASE-1_4/jasypt/src/main/java/org/jasypt/intf/cli/CLIUtils.java:157-163 | the loops collect `Names` of both group lists |
| CLIArguments.CollectStep | RELEASE-1_4/jasypt/src/main/java/org/jasypt/intf/cli/CLIUtils.java:167-182 | one argument: a rejected one ends the loop with its exception; a good one stores its unquoted value under its key and the loop goes on |
| CLIArguments.StoreArgument | RELEASE-1_4/jasypt/src/main/java/org/jasypt/intf/cli/CLIUtils.java:167-182 | the loop body for one argument throws its exception when it is rejected, and otherwise stores its unquoted value under its key |
| CLIArguments.ReadArguments | RELEASE-1_4/jasypt/src/main/java/org/jasypt/intf/cli/CLIUtils.java:165-183 | the argument loop computes `Collect` |
| CLIArguments.AllGroupsPresent | RELEASE-1_4/jasypt/src/main/java/org/jasypt/intf/cli/CLIUtils.java:186-197 | the nested `found` loops answer whether every required group has a member present |
| CLIArguments.GetArgumentValues | RELEASE-1_4/jasypt/src/main/java/org/jasypt/intf/cli/CLIUtils.java:154-200 | the whole method computes `ArgumentValues` |

## Left out

- The password-based cipher itself (the key derivation and encryption of section 6.1 of RFC 2898, done by `StandardPBEByteEncryptor` and the JCE provider) is not part of this model. The inner engine is an abstract type with a record of operations. The round trip is a hypothesis of `DecryptInvertsEncrypt`.
- Locking (`synchronized` methods and blocks of the pool) is left out: the model is sequential, one call at a time.
- Memory exhaustion (`OutOfMemoryError` from a huge `new byte[expectedSize]`) is not modelled. The decoder has no size ceiling of its own, and neither has the model.
- `ArrayUtils.addAll` is modelled as sequence concatenation.
- Class loading and `newInstance` in `setSaltGeneratorClassName` and `setProviderClassName` become a parameter `instantiate` that returns an instance or nothing.
- Printing, `showUsageAndExit` and `System.exit` are left out: ending the program is the `UsageAndExit` error. The `appName` parameter only feeds printing and is dropped.
- The value of `ArgumentNaming.ARG_VERBOSE` is not part of this model; the constant is taken to be `"verbose"`.
- The plain field getters of `SimplePBEConfig` (lines 417-459, apart from the two password getters) are reads of the class's fields, not separate members.
- `Integer.parseInt` is modelled with ASCII digits only. It accepts a leading `+`, as Java 7 and later do. Non-ASCII Unicode digits are not modelled.
- Java's `char` is Dafny's `char`, and no Unicode case mapping is modelled.

## Findings

| source | as written | input that shows it | evidently intended | confidence | as-written member | corrected member |
|---|---|---|---|---|---|---|
| trunk/jasypt/src/main/java/org/jasypt/encryption/pbe/NumberUtils.java:51 | the accumulator is seeded with the first byte, and the loop then consumes every byte, the first one included | `intFromByteArray([0x01])` returns 257 | the big-endian value of the bytes, low 32 bits: 1 for [0x01]. The seed is shifted out from four bytes on, and the only caller passes exactly four, so the codec is unaffected | not executed | NumberUtils.AsWrittenReadsFirstByteTwice | NumberUtils.BigEndianInt32 |
