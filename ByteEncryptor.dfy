/**
 * The interface through which the modelled classes use a
 * `StandardPBEByteEncryptor`, the password-based byte encryptor that derives
 * keys and runs the cipher. Its implementation is not part of this model:
 * an engine is a value of an arbitrary type `E`, and each of its calls is a
 * function of the engine that yields the engine's new state together with
 * what the call returned or threw.
 */
module ByteEncryptor {
  import opened Java

  /** One call of a configuration setter, with its argument (Java null as None). */
  datatype Setting =
    | SetConfig(config: Option<Instance>)
    | SetAlgorithm(algorithm: Option<string>)
    | SetPassword(password: Option<string>)
    | SetKeyObtentionIterations(iterations: int32)
    | SetSaltGenerator(saltGenerator: Option<Instance>)
    | SetProviderName(providerName: Option<string>)
    | SetProvider(provider: Option<Instance>)

  /** The engine after a call, and what the call returned or threw. */
  datatype Step<E, T> = Step(engine: E, result: Result<T>)

  /**
   * The calls the modelled classes make on an engine. A setter or
   * `initialize` that throws leaves the engine as it was; `encrypt`,
   * `decrypt` and `cloneEncryptor` may change the engine (they initialize it
   * on first use) whether or not they throw. Byte arrays may be null.
   */
  datatype EngineOps<!E> = EngineOps(
    newEngine: E,
    configure: (E, Setting) -> Result<E>,
    isInitialized: E -> bool,
    initialize: E -> Result<E>,
    encrypt: (E, Option<seq<byte>>) -> Step<E, Option<seq<byte>>>,
    decrypt: (E, Option<seq<byte>>) -> Step<E, Option<seq<byte>>>,
    cloneEncryptor: E -> Step<E, E>)

  /**
   * `after` and `r` are the engine and the outcome of calling the setter
   * `s` on `before`: the new engine on success, the old one on an exception.
   */
  ghost predicate Configured<E>(ops: EngineOps<E>, before: E, s: Setting, after: E, r: Outcome)
  {
    match ops.configure(before, s)
    case Success(e) => after == e && r == Pass
    case Failure(err) => after == before && r == Fail(err)
  }

  /** The same for `initialize`. */
  ghost predicate Initialized<E>(ops: EngineOps<E>, before: E, after: E, r: Outcome)
  {
    match ops.initialize(before)
    case Success(e) => after == e && r == Pass
    case Failure(err) => after == before && r == Fail(err)
  }
}
