/**
 * `PooledStandardPBEByteEncryptor`: a fixed array of byte encryptors. Slot 0
 * receives the configuration; `initialize` fills the other slots once, each
 * a clone of the slot before it; every `encrypt` or `decrypt` call is served
 * by the next slot in round-robin order. Locking is not modelled: calls are
 * sequential.
 */
module PooledEncryptor {
  import opened Java
  import opened ByteEncryptor

  /** The pool's slots after filling, and whether filling completed. */
  datatype Filled<E> = Filled(slots: seq<Option<E>>, outcome: Outcome)

  /**
   * The loop of `initialize` from index `i` on: slot `k` becomes a clone of
   * slot `k - 1`; cloning may change the cloned engine, and an exception
   * stops the loop with the slots filled so far.
   */
  function FillFrom<E>(ops: EngineOps<E>, slots: seq<Option<E>>, i: nat): (r: Filled<E>)
    requires 1 <= i <= |slots| && slots[i - 1].Some?
    ensures |r.slots| == |slots|
    ensures r.slots[..i - 1] == slots[..i - 1]
    decreases |slots| - i
  {
    if i == |slots| then Filled(slots, Pass)
    else
      var step := ops.cloneEncryptor(slots[i - 1].value);
      var cloned := slots[i - 1 := Some(step.engine)];
      match step.result
      case Failure(e) => Filled(cloned, Fail(e))
      case Success(c) => FillFrom(ops, cloned[i := Some(c)], i + 1)
  }

  /** A completed fill leaves no slot from `i - 1` on empty. */
  lemma {:induction false} FillFromFillsEverySlot<E>(ops: EngineOps<E>, slots: seq<Option<E>>, i: nat)
    requires 1 <= i <= |slots| && slots[i - 1].Some?
    ensures FillFrom(ops, slots, i).outcome.Pass? ==>
      forall k :: i - 1 <= k < |slots| ==> FillFrom(ops, slots, i).slots[k].Some?
    decreases |slots| - i
  {
    if i < |slots| {
      var step := ops.cloneEncryptor(slots[i - 1].value);
      var cloned := slots[i - 1 := Some(step.engine)];
      if step.result.Success? {
        var next := cloned[i := Some(step.result.value)];
        FillFromFillsEverySlot(ops, next, i + 1);
        var r := FillFrom(ops, next, i + 1);
        assert r.slots[..i] == next[..i];
        assert r.slots[i - 1] == next[i - 1];
      }
    }
  }

  /** Cloning that copies an engine exactly and leaves the original alone. */
  ghost predicate ExactClone<E(!new)>(ops: EngineOps<E>)
  {
    forall e :: ops.cloneEncryptor(e) == Step(e, Success(e))
  }

  /**
   * With exact cloning, the fill completes and every slot from `i - 1` on
   * holds the engine of slot `i - 1`.
   */
  lemma {:induction false} FillFromCopiesFirstSlot<E(!new)>(ops: EngineOps<E>, slots: seq<Option<E>>, i: nat)
    requires 1 <= i <= |slots| && slots[i - 1].Some?
    requires ExactClone(ops)
    ensures FillFrom(ops, slots, i).outcome == Pass
    ensures forall k :: i - 1 <= k < |slots| ==> FillFrom(ops, slots, i).slots[k] == slots[i - 1]
    decreases |slots| - i
  {
    if i < |slots| {
      var e := slots[i - 1].value;
      var next := slots[i := Some(e)];
      assert ops.cloneEncryptor(e) == Step(e, Success(e));
      assert slots[i - 1 := Some(e)] == slots;
      assert FillFrom(ops, slots, i) == FillFrom(ops, next, i + 1);
      FillFromCopiesFirstSlot(ops, next, i + 1);
      var r := FillFrom(ops, next, i + 1);
      assert r.slots[..i] == next[..i];
      assert r.slots[i - 1] == next[i - 1];
    }
  }

  /** The slots served by `encrypt`/`decrypt` calls, in order, with `n` slots. */
  ghost predicate RoundRobinOrder(served: seq<nat>, n: nat)
  {
    n >= 1 && forall i :: 0 <= i < |served| ==> served[i] == i % n
  }

  lemma MulAtLeast(d: int, n: int)
    requires d >= 1 && n >= 0
    ensures d * n >= n
  {
    if d > 1 {
      MulAtLeast(d - 1, n);
      assert d * n == (d - 1) * n + n;
    }
  }

  /** Quotient and remainder are determined by `x == q * n + s`, `0 <= s < n`. */
  lemma ModUnique(x: int, n: int, q: int, s: int)
    requires n >= 1 && 0 <= s < n && x == q * n + s
    ensures x % n == s && x / n == q
  {
    var d := x / n - q;
    assert x == (x / n) * n + x % n;
    assert (x / n) * n == d * n + q * n;
    assert d * n == s - x % n;
    if d >= 1 {
      MulAtLeast(d, n);
    } else if d <= -1 {
      MulAtLeast(-d, n);
    }
  }

  /** Advancing the counter modulo `n` keeps it equal to the call count modulo `n`. */
  lemma CounterStep(count: nat, n: nat)
    requires n >= 1
    ensures (count % n + 1) % n == (count + 1) % n
  {
    var q, rr := count / n, count % n;
    assert count == q * n + rr;
    if rr + 1 < n {
      ModUnique(count + 1, n, q, rr + 1);
      ModUnique(rr + 1, n, 0, rr + 1);
    } else {
      assert count + 1 == (q + 1) * n + 0;
      ModUnique(count + 1, n, q + 1, 0);
      ModUnique(rr + 1, n, 1, 0);
    }
  }

  /** The call, among the `n` calls from call `j` on, that slot `s` serves. */
  function CallOf(j: nat, n: nat, s: nat): (a: nat)
    requires n >= 1
    ensures j <= a < j + n
  {
    j + (s - j) % n
  }

  /**
   * Any `n` consecutive calls, in a pool of `n` slots, are served by every
   * slot exactly once, in cyclic order starting from the slot of the first.
   */
  lemma WindowVisitsEachSlotOnce(served: seq<nat>, n: nat, j: nat)
    requires RoundRobinOrder(served, n) && j + n <= |served|
    ensures served[j..j + n] == seq(n, k => (j + k) % n)
    ensures forall s :: 0 <= s < n ==> served[CallOf(j, n, s)] == s
    ensures forall a, b :: j <= a < b < j + n ==> served[a] != served[b]
  {
    forall s | 0 <= s < n
      ensures served[CallOf(j, n, s)] == s
    {
      var t := s - j;
      var a := CallOf(j, n, s);
      assert t == (t / n) * n + t % n;
      assert a == (-(t / n)) * n + s;
      ModUnique(a, n, -(t / n), s);
    }
    forall a, b | j <= a < b < j + n
      ensures served[a] != served[b]
    {
      if served[a] == served[b] {
        var qa, qb := a / n, b / n;
        assert a == qa * n + a % n;
        assert b == qb * n + b % n;
        assert b - a == (qb - qa) * n;
        if qb - qa >= 1 {
          MulAtLeast(qb - qa, n);
        } else if qa - qb >= 1 {
          MulAtLeast(qa - qb, n);
        }
      }
    }
  }

  class PooledStandardPBEByteEncryptor<E> {
    const ops: EngineOps<E>
    const poolSize: int32
    const pool: array<Option<E>>
    var roundRobin: int32
    var initialized: bool
    /** The slot each `encrypt`/`decrypt` call so far was served by. */
    ghost var served: seq<nat>

    ghost predicate Valid()
      reads this, pool
    {
      && 1 <= poolSize as int == pool.Length
      && 0 <= roundRobin < poolSize
      && pool[0].Some?
      && (initialized ==> forall i :: 0 <= i < pool.Length ==> pool[i].Some?)
      && RoundRobinOrder(served, poolSize as nat)
      && roundRobin as int == |served| % poolSize as int
    }

    /** The pool right after construction: slot 0 holds a new engine. */
    constructor(poolSize: int32, ops: EngineOps<E>)
      requires poolSize >= 1
      ensures Valid() && fresh(pool)
      ensures this.poolSize == poolSize && this.ops == ops
      ensures pool[..] == [Some(ops.newEngine)] + seq(poolSize - 1, _ => None)
      ensures roundRobin == 0 && !initialized && served == []
    {
      this.ops := ops;
      this.poolSize := poolSize;
      var slots := new Option<E>[poolSize](_ => None);
      slots[0] := Some(ops.newEngine);
      pool := slots;
      roundRobin := 0;
      initialized := false;
      served := [];
    }

    /** The Java constructor: a pool size below 1 is rejected. */
    static method Create(poolSize: int32, ops: EngineOps<E>) returns (r: Result<PooledStandardPBEByteEncryptor<E>>)
      ensures r.Failure? <==> poolSize < 1
      ensures r.Failure? ==> r.error == IllegalArgument("Pool size must be > 0")
      ensures r.Success? ==>
        && fresh(r.value) && fresh(r.value.pool) && r.value.Valid()
        && r.value.poolSize == poolSize && r.value.ops == ops
        && r.value.pool[..] == [Some(ops.newEngine)] + seq(poolSize - 1, _ => None)
        && r.value.roundRobin == 0 && !r.value.initialized && r.value.served == []
    {
      if poolSize < 1 {
        return Failure(IllegalArgument("Pool size must be > 0"));
      }
      var p := new PooledStandardPBEByteEncryptor(poolSize, ops);
      r := Success(p);
    }

    /** Forwards one setter call to slot 0; the other slots are not touched. */
    method Configure(s: Setting) returns (r: Outcome)
      requires Valid()
      modifies pool
      ensures Valid()
      ensures Configured(ops, old(pool[0].value), s, pool[0].value, r)
      ensures pool[1..] == old(pool[1..])
    {
      var c := ops.configure(pool[0].value, s);
      match c
      case Success(e) => pool[0] := Some(e); r := Pass;
      case Failure(err) => r := Fail(err);
    }

    method SetConfig(config: Option<Instance>) returns (r: Outcome)
      requires Valid()
      modifies pool
      ensures Valid()
      ensures Configured(ops, old(pool[0].value), ByteEncryptor.SetConfig(config), pool[0].value, r)
      ensures pool[1..] == old(pool[1..])
    {
      r := Configure(ByteEncryptor.SetConfig(config));
    }

    method SetAlgorithm(algorithm: Option<string>) returns (r: Outcome)
      requires Valid()
      modifies pool
      ensures Valid()
      ensures Configured(ops, old(pool[0].value), ByteEncryptor.SetAlgorithm(algorithm), pool[0].value, r)
      ensures pool[1..] == old(pool[1..])
    {
      r := Configure(ByteEncryptor.SetAlgorithm(algorithm));
    }

    method SetPassword(password: Option<string>) returns (r: Outcome)
      requires Valid()
      modifies pool
      ensures Valid()
      ensures Configured(ops, old(pool[0].value), ByteEncryptor.SetPassword(password), pool[0].value, r)
      ensures pool[1..] == old(pool[1..])
    {
      r := Configure(ByteEncryptor.SetPassword(password));
    }

    method SetKeyObtentionIterations(iterations: int32) returns (r: Outcome)
      requires Valid()
      modifies pool
      ensures Valid()
      ensures Configured(ops, old(pool[0].value), ByteEncryptor.SetKeyObtentionIterations(iterations), pool[0].value, r)
      ensures pool[1..] == old(pool[1..])
    {
      r := Configure(ByteEncryptor.SetKeyObtentionIterations(iterations));
    }

    method SetSaltGenerator(saltGenerator: Option<Instance>) returns (r: Outcome)
      requires Valid()
      modifies pool
      ensures Valid()
      ensures Configured(ops, old(pool[0].value), ByteEncryptor.SetSaltGenerator(saltGenerator), pool[0].value, r)
      ensures pool[1..] == old(pool[1..])
    {
      r := Configure(ByteEncryptor.SetSaltGenerator(saltGenerator));
    }

    method SetProviderName(providerName: Option<string>) returns (r: Outcome)
      requires Valid()
      modifies pool
      ensures Valid()
      ensures Configured(ops, old(pool[0].value), ByteEncryptor.SetProviderName(providerName), pool[0].value, r)
      ensures pool[1..] == old(pool[1..])
    {
      r := Configure(ByteEncryptor.SetProviderName(providerName));
    }

    method SetProvider(provider: Option<Instance>) returns (r: Outcome)
      requires Valid()
      modifies pool
      ensures Valid()
      ensures Configured(ops, old(pool[0].value), ByteEncryptor.SetProvider(provider), pool[0].value, r)
      ensures pool[1..] == old(pool[1..])
    {
      r := Configure(ByteEncryptor.SetProvider(provider));
    }

    method IsInitialized() returns (r: bool)
      ensures r == initialized
    {
      r := initialized;
    }

    /**
     * Fills slots 1 to `poolSize - 1` by cloning, unless already done; the
     * flag is set only when every clone succeeded, so a failed call can be
     * repeated.
     */
    method Initialize() returns (r: Outcome)
      requires Valid()
      modifies this, pool
      ensures Valid()
      ensures roundRobin == old(roundRobin) && served == old(served)
      ensures old(initialized) ==> r == Pass && initialized && pool[..] == old(pool[..])
      ensures !old(initialized) ==>
        var f := FillFrom(ops, old(pool[..]), 1);
        && pool[..] == f.slots && r == f.outcome && initialized == r.Pass?
    {
      if initialized {
        return Pass;
      }
      ghost var goal := FillFrom(ops, pool[..], 1);
      var i: int32 := 1;
      while i < poolSize
        invariant 1 <= i <= poolSize
        invariant pool[i - 1].Some?
        invariant FillFrom(ops, pool[..], i as nat) == goal
        invariant pool[0].Some?
        invariant roundRobin == old(roundRobin) && served == old(served) && !initialized
        decreases poolSize - i
      {
        var step := ops.cloneEncryptor(pool[i - 1].value);
        pool[i - 1] := Some(step.engine);
        if step.result.Failure? {
          assert pool[..] == goal.slots;
          assert pool[0].Some?;
          return Fail(step.result.error);
        }
        pool[i] := Some(step.result.value);
        i := i + 1;
      }
      assert pool[..] == goal.slots;
      FillFromFillsEverySlot(ops, old(pool[..]), 1);
      initialized := true;
      r := Pass;
    }

    /**
     * The common body of `encrypt` and `decrypt`: initialize if needed, take
     * the slot `roundRobin`, advance the counter, and run `op` on that slot.
     */
    method Serve(op: (E, Option<seq<byte>>) -> Step<E, Option<seq<byte>>>, input: Option<seq<byte>>)
      returns (r: Result<Option<seq<byte>>>)
      requires Valid()
      modifies this, pool
      ensures Valid()
      ensures old(initialized) ==> initialized
      ensures
        var f := if old(initialized) then Filled(old(pool[..]), Pass) else FillFrom(ops, old(pool[..]), 1);
        && (f.outcome.Fail? ==>
              && r == Failure(f.outcome.error) && pool[..] == f.slots && !initialized
              && roundRobin == old(roundRobin) && served == old(served))
        && (f.outcome.Pass? ==>
              && initialized
              && f.slots[old(roundRobin)].Some?
              && var step := op(f.slots[old(roundRobin)].value, input);
              && r == step.result
              && pool[..] == f.slots[old(roundRobin) := Some(step.engine)]
              && roundRobin as int == (old(roundRobin) as int + 1) % poolSize as int
              && served == old(served) + [old(roundRobin) as nat])
    {
      if !initialized {
        var init := Initialize();
        if init.Fail? {
          return Failure(init.error);
        }
      }
      r := Claim(op, input);
    }

    /** Runs `op` on slot `roundRobin` of the filled pool and advances the counter. */
    method Claim(op: (E, Option<seq<byte>>) -> Step<E, Option<seq<byte>>>, input: Option<seq<byte>>)
      returns (r: Result<Option<seq<byte>>>)
      requires Valid() && initialized
      modifies this, pool
      ensures Valid() && initialized
      ensures var step := op(old(pool[roundRobin].value), input);
        && r == step.result
        && pool[..] == old(pool[..])[old(roundRobin) := Some(step.engine)]
        && roundRobin as int == (old(roundRobin) as int + 1) % poolSize as int
        && served == old(served) + [old(roundRobin) as nat]
    {
      var poolPosition := roundRobin;
      CounterStep(|served|, poolSize as nat);
      roundRobin := (roundRobin + 1) % poolSize;
      served := served + [poolPosition as nat];
      var step := op(pool[poolPosition].value, input);
      pool[poolPosition] := Some(step.engine);
      r := step.result;
    }

    method Encrypt(message: Option<seq<byte>>) returns (r: Result<Option<seq<byte>>>)
      requires Valid()
      modifies this, pool
      ensures Valid()
      ensures old(initialized) ==> initialized
      ensures
        var f := if old(initialized) then Filled(old(pool[..]), Pass) else FillFrom(ops, old(pool[..]), 1);
        && (f.outcome.Fail? ==>
              && r == Failure(f.outcome.error) && pool[..] == f.slots && !initialized
              && roundRobin == old(roundRobin) && served == old(served))
        && (f.outcome.Pass? ==>
              && initialized
              && f.slots[old(roundRobin)].Some?
              && var step := ops.encrypt(f.slots[old(roundRobin)].value, message);
              && r == step.result
              && pool[..] == f.slots[old(roundRobin) := Some(step.engine)]
              && roundRobin as int == (old(roundRobin) as int + 1) % poolSize as int
              && served == old(served) + [old(roundRobin) as nat])
    {
      r := Serve(ops.encrypt, message);
    }

    method Decrypt(encryptedMessage: Option<seq<byte>>) returns (r: Result<Option<seq<byte>>>)
      requires Valid()
      modifies this, pool
      ensures Valid()
      ensures old(initialized) ==> initialized
      ensures
        var f := if old(initialized) then Filled(old(pool[..]), Pass) else FillFrom(ops, old(pool[..]), 1);
        && (f.outcome.Fail? ==>
              && r == Failure(f.outcome.error) && pool[..] == f.slots && !initialized
              && roundRobin == old(roundRobin) && served == old(served))
        && (f.outcome.Pass? ==>
              && initialized
              && f.slots[old(roundRobin)].Some?
              && var step := ops.decrypt(f.slots[old(roundRobin)].value, encryptedMessage);
              && r == step.result
              && pool[..] == f.slots[old(roundRobin) := Some(step.engine)]
              && roundRobin as int == (old(roundRobin) as int + 1) % poolSize as int
              && served == old(served) + [old(roundRobin) as nat])
    {
      r := Serve(ops.decrypt, encryptedMessage);
    }
  }
}
