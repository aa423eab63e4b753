/**
 * `SimplePBEConfig` (release 1.8): a configuration bean whose password is
 * kept in a char array that can be zeroed ("cleaned"); once cleaned, the
 * password can no longer be read. Two setters parse an integer from a
 * string, and two instantiate a class by name.
 */
module PBEConfig {
  import opened Java

  /** An ASCII decimal digit (the Unicode digits `Character.digit` also accepts are left out). */
  predicate IsDigit(c: char)
  {
    '0' as int <= c as int <= '9' as int
  }

  /** The value of a string of decimal digits. */
  function DigitsValue(s: string): (r: nat)
    requires forall i :: 0 <= i < |s| ==> IsDigit(s[i])
  {
    if s == [] then 0
    else
      assert IsDigit(s[|s| - 1]);
      DigitsValue(s[..|s| - 1]) * 10 + (s[|s| - 1] as int - '0' as int)
  }

  /**
   * `Integer.parseInt(s)` (what `new Integer(s)` calls): an optional sign
   * (`-` or `+`), then at least one decimal digit, with a value in the
   * `int` range; anything else is a `NumberFormatException` (None).
   */
  function ParseInt(s: string): (r: Option<int32>)
    ensures |s| == 0 ==> r.None?
    ensures r.Some? ==> forall i :: 0 < i < |s| ==> IsDigit(s[i])
    ensures r.Some? ==> IsDigit(s[0]) || (|s| >= 2 && (s[0] == '-' || s[0] == '+'))
    ensures r.Some? && r.value < 0 ==> s[0] == '-'
  {
    if |s| == 0 then None
    else
      var negative := s[0] == '-';
      var digits := if s[0] == '-' || s[0] == '+' then s[1..] else s;
      if |digits| == 0 || !(forall i :: 0 <= i < |digits| ==> IsDigit(digits[i])) then None
      else
        var v: int := if negative then -(DigitsValue(digits) as int) else DigitsValue(digits);
        if INT_MIN <= v <= INT_MAX then Some(v) else None
  }

  /**
   * For a non-empty run of digits `d`: `d` and `+d` read as its value when
   * that fits below 2^31, and `-d` reads as the negated value down to -2^31.
   */
  lemma ParseIntOfDigits(d: string)
    requires |d| > 0 && forall i :: 0 <= i < |d| ==> IsDigit(d[i])
    ensures ParseInt(d) == if DigitsValue(d) <= INT_MAX then Some(DigitsValue(d)) else None
    ensures ParseInt("+" + d) == ParseInt(d)
    ensures ParseInt("-" + d) == if DigitsValue(d) <= -INT_MIN then Some(-(DigitsValue(d) as int)) else None
  {
    assert IsDigit(d[0]);
    assert ("+" + d)[1..] == d;
    assert ("-" + d)[1..] == d;
  }

  /** The decimal digits of `n`, without leading zeros ("0" for zero). */
  function Digits(n: nat): (r: string)
    ensures |r| > 0 && forall i :: 0 <= i < |r| ==> IsDigit(r[i])
  {
    var d := [('0' as int + n % 10) as char];
    if n < 10 then d else Digits(n / 10) + d
  }

  /** `Integer.toString(n)`. */
  function DecimalString(n: int32): string
  {
    if n < 0 then "-" + Digits(-(n as int)) else Digits(n)
  }

  lemma {:induction false} DigitsValueOfDigits(n: nat)
    ensures DigitsValue(Digits(n)) == n
  {
    var s := Digits(n);
    var d := [('0' as int + n % 10) as char];
    if n >= 10 {
      DigitsValueOfDigits(n / 10);
      assert s[..|s| - 1] == Digits(n / 10);
    }
  }

  /** Every `int` survives `Integer.toString` followed by `Integer.parseInt`. */
  lemma ParseIntInvertsDecimalString(n: int32)
    ensures ParseInt(DecimalString(n)) == Some(n)
  {
    var s := DecimalString(n);
    if n < 0 {
      var m := -(n as int);
      DigitsValueOfDigits(m);
      assert s[0] == '-';
      assert s[1..] == Digits(m);
      assert -(DigitsValue(s[1..]) as int) == n;
    } else {
      DigitsValueOfDigits(n);
      assert IsDigit(s[0]);
      assert DigitsValue(s) == n;
    }
  }

  /** The fields of the bean, for stating which fields a setter leaves alone. */
  datatype Field =
    | Algorithm | Password | KeyObtentionIterations | SaltGenerator
    | ProviderName | Provider | PoolSize

  class SimplePBEConfig {
    var algorithm: Option<string>
    var password: array?<char>
    var keyObtentionIterations: Option<int32>
    var saltGenerator: Option<Instance>
    var providerName: Option<string>
    var provider: Option<Instance>
    var poolSize: Option<int32>
    var passwordCleaned: bool

    /** Every field other than `f` (the password counts with its flag) is as it was. */
    twostate predicate OnlyChanged(f: Field)
      reads this
    {
      && (f != Algorithm ==> algorithm == old(algorithm))
      && (f != Password ==> password == old(password) && passwordCleaned == old(passwordCleaned))
      && (f != KeyObtentionIterations ==> keyObtentionIterations == old(keyObtentionIterations))
      && (f != SaltGenerator ==> saltGenerator == old(saltGenerator))
      && (f != ProviderName ==> providerName == old(providerName))
      && (f != Provider ==> provider == old(provider))
      && (f != PoolSize ==> poolSize == old(poolSize))
    }

    /** Every field starts out null, and the password is not cleaned. */
    constructor()
      ensures algorithm.None? && password == null && keyObtentionIterations.None?
      ensures saltGenerator.None? && providerName.None? && provider.None? && poolSize.None?
      ensures !passwordCleaned
    {
      algorithm := None;
      password := null;
      keyObtentionIterations := None;
      saltGenerator := None;
      providerName := None;
      provider := None;
      poolSize := None;
      passwordCleaned := false;
    }

    method SetAlgorithm(algorithm: Option<string>)
      modifies this
      ensures this.algorithm == algorithm && OnlyChanged(Algorithm)
    {
      this.algorithm := algorithm;
    }

    /**
     * Zeroes the stored password's chars and replaces it with an empty
     * array (a null password stays null); the flag is set in either case.
     */
    method CleanPassword()
      modifies this, password
      ensures passwordCleaned && OnlyChanged(Password)
      ensures old(password) == null ==> password == null
      ensures old(password) != null ==>
        && forall i :: 0 <= i < old(password).Length ==> old(password)[i] == '\0'
      ensures old(password) != null ==> password != null && fresh(password) && password.Length == 0
    {
      if password != null {
        var pwdLength := password.Length;
        var i := 0;
        while i < pwdLength
          invariant 0 <= i <= pwdLength
          invariant forall k :: 0 <= k < i ==> password[k] == '\0'
          modifies password
        {
          password[i] := '\0';
          i := i + 1;
        }
        password := new char[0];
      }
      passwordCleaned := true;
    }

    /**
     * Cleans the old password if there was one, then stores the new one (a
     * null stays null) in a new array.
     */
    method SetPassword(password: Option<string>)
      modifies this, this.password
      ensures OnlyChanged(Password)
      ensures passwordCleaned == (old(passwordCleaned) || old(this.password) != null)
      ensures old(this.password) != null ==>
        forall i :: 0 <= i < old(this.password).Length ==> old(this.password)[i] == '\0'
      ensures password.None? ==> this.password == null
      ensures password.Some? ==> this.password != null && fresh(this.password) && this.password[..] == password.value
    {
      if this.password != null {
        CleanPassword();
      }
      if password.None? {
        this.password := null;
      } else {
        var chars := password.value;
        this.password := new char[|chars|](i requires 0 <= i < |chars| => chars[i]);
      }
    }

    /**
     * The same for a char array: the stored password is a copy, so the
     * caller's array and the stored one never alias.
     */
    method SetPasswordCharArray(password: array?<char>)
      modifies this, this.password
      ensures OnlyChanged(Password)
      ensures passwordCleaned == (old(passwordCleaned) || old(this.password) != null)
      ensures old(this.password) != null ==>
        forall i :: 0 <= i < old(this.password).Length ==> old(this.password)[i] == '\0'
      ensures password == null ==> this.password == null
      ensures password != null ==>
        && this.password != null && fresh(this.password)
        && this.password[..] == old(if password == this.password then seq(password.Length, _ => '\0') else password[..])
    {
      if this.password != null {
        CleanPassword();
      }
      if password == null {
        this.password := null;
      } else {
        var copy := new char[password.Length];
        var copied := ArrayCopy(password, 0, copy, 0, password.Length);
        this.password := copy;
      }
    }

    method SetKeyObtentionIterations(keyObtentionIterations: Option<int32>)
      modifies this
      ensures this.keyObtentionIterations == keyObtentionIterations && OnlyChanged(KeyObtentionIterations)
    {
      this.keyObtentionIterations := keyObtentionIterations;
    }

    /**
     * The String overload: null clears the field, a number is stored, and
     * anything else is an initialization error that changes nothing.
     */
    method SetKeyObtentionIterationsString(keyObtentionIterations: Option<string>) returns (r: Outcome)
      modifies this
      ensures OnlyChanged(KeyObtentionIterations)
      ensures keyObtentionIterations.None? ==> r == Pass && this.keyObtentionIterations.None?
      ensures keyObtentionIterations.Some? ==>
        match ParseInt(keyObtentionIterations.value)
        case Some(n) => r == Pass && this.keyObtentionIterations == Some(n)
        case None => r == Fail(EncryptionInitialization) && this.keyObtentionIterations == old(this.keyObtentionIterations)
    {
      if keyObtentionIterations.None? {
        this.keyObtentionIterations := None;
        return Pass;
      }
      var parsed := ParseInt(keyObtentionIterations.value);
      if parsed.None? {
        return Fail(EncryptionInitialization);
      }
      this.keyObtentionIterations := parsed;
      r := Pass;
    }

    method SetSaltGenerator(saltGenerator: Option<Instance>)
      modifies this
      ensures this.saltGenerator == saltGenerator && OnlyChanged(SaltGenerator)
    {
      this.saltGenerator := saltGenerator;
    }

    /**
     * Loads and instantiates the named class through `instantiate`, which
     * stands for the class loader: its failure is an initialization error
     * that changes nothing. A null name clears the field.
     */
    method SetSaltGeneratorClassName(saltGeneratorClassName: Option<string>, instantiate: string -> Option<Instance>)
      returns (r: Outcome)
      modifies this
      ensures OnlyChanged(SaltGenerator)
      ensures saltGeneratorClassName.None? ==> r == Pass && saltGenerator.None?
      ensures saltGeneratorClassName.Some? ==>
        match instantiate(saltGeneratorClassName.value)
        case Some(g) => r == Pass && saltGenerator == Some(g)
        case None => r == Fail(EncryptionInitialization) && saltGenerator == old(saltGenerator)
    {
      if saltGeneratorClassName.None? {
        saltGenerator := None;
        return Pass;
      }
      var loaded := instantiate(saltGeneratorClassName.value);
      if loaded.None? {
        return Fail(EncryptionInitialization);
      }
      saltGenerator := loaded;
      r := Pass;
    }

    method SetProviderName(providerName: Option<string>)
      modifies this
      ensures this.providerName == providerName && OnlyChanged(ProviderName)
    {
      this.providerName := providerName;
    }

    method SetProvider(provider: Option<Instance>)
      modifies this
      ensures this.provider == provider && OnlyChanged(Provider)
    {
      this.provider := provider;
    }

    /** Writes the same field as `SetProvider`, through the class loader. */
    method SetProviderClassName(providerClassName: Option<string>, instantiate: string -> Option<Instance>)
      returns (r: Outcome)
      modifies this
      ensures OnlyChanged(Provider)
      ensures providerClassName.None? ==> r == Pass && provider.None?
      ensures providerClassName.Some? ==>
        match instantiate(providerClassName.value)
        case Some(p) => r == Pass && provider == Some(p)
        case None => r == Fail(EncryptionInitialization) && provider == old(provider)
    {
      if providerClassName.None? {
        provider := None;
        return Pass;
      }
      var loaded := instantiate(providerClassName.value);
      if loaded.None? {
        return Fail(EncryptionInitialization);
      }
      provider := loaded;
      r := Pass;
    }

    method SetPoolSize(poolSize: Option<int32>)
      modifies this
      ensures this.poolSize == poolSize && OnlyChanged(PoolSize)
    {
      this.poolSize := poolSize;
    }

    /** The String overload, with the same rules as the iterations one. */
    method SetPoolSizeString(poolSize: Option<string>) returns (r: Outcome)
      modifies this
      ensures OnlyChanged(PoolSize)
      ensures poolSize.None? ==> r == Pass && this.poolSize.None?
      ensures poolSize.Some? ==>
        match ParseInt(poolSize.value)
        case Some(n) => r == Pass && this.poolSize == Some(n)
        case None => r == Fail(EncryptionInitialization) && this.poolSize == old(this.poolSize)
    {
      if poolSize.None? {
        this.poolSize := None;
        return Pass;
      }
      var parsed := ParseInt(poolSize.value);
      if parsed.None? {
        return Fail(EncryptionInitialization);
      }
      this.poolSize := parsed;
      r := Pass;
    }

    /**
     * Fails once the password was cleaned; a password that was never set
     * makes `new String(null)` throw.
     */
    method GetPassword() returns (r: Result<string>)
      ensures passwordCleaned ==> r == Failure(PasswordAlreadyCleaned)
      ensures !passwordCleaned && password == null ==> r == Failure(NullPointer)
      ensures !passwordCleaned && password != null ==> r == Success(password[..])
    {
      if passwordCleaned {
        return Failure(PasswordAlreadyCleaned);
      }
      if password == null {
        return Failure(NullPointer);
      }
      r := Success(password[..]);
    }

    /** As `GetPassword`, returning a new array the caller may change freely. */
    method GetPasswordCharArray() returns (r: Result<array<char>>)
      ensures passwordCleaned ==> r == Failure(PasswordAlreadyCleaned)
      ensures !passwordCleaned && password == null ==> r == Failure(NullPointer)
      ensures !passwordCleaned && password != null ==>
        r.Success? && fresh(r.value) && r.value[..] == password[..]
    {
      if passwordCleaned {
        return Failure(PasswordAlreadyCleaned);
      }
      if password == null {
        return Failure(NullPointer);
      }
      var result := new char[password.Length];
      var copied := ArrayCopy(password, 0, result, 0, password.Length);
      r := Success(result);
    }
  }
}
