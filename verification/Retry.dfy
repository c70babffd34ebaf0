/** Connecting with retries and exponential backoff. */
module Retry {
  import opened Wrappers

  const U32_MAX: nat := 0xFFFF_FFFF
  const U64_MAX: nat := 0xFFFF_FFFF_FFFF_FFFF

  /** Whether 32-bit overflow panics or wraps: the two ways the crate can be compiled. */
  datatype Profile = Checked | Wrapping

  /**
    `CounterWrapped` is the moment the 32-bit attempt counter returns to zero, from where the source
    starts over.
   */
  datatype Ending<P, E> = Connected(pool: P) | GaveUp(error: E) | Panicked | CounterWrapped

  function Pow2(n: nat): (p: nat)
    ensures p > 0
  {
    if n == 0 then 1 else 2 * Pow2(n - 1)
  }

  /** Two to the `n` in 32 bits. */
  function Pow2U32(profile: Profile, n: nat): (p: Option<nat>)
    ensures n < 32 ==> p == Some(Pow2(n))
    ensures n >= 32 ==> p == if profile.Checked? then None else Some(0)
  {
    if n < 32 then Some(Pow2(n)) else if profile.Checked? then None else Some(0)
  }

  lemma {:induction false} Pow2Splits(m: nat, n: nat)
    ensures Pow2(m + n) == Pow2(m) * Pow2(n)
  {
    if n > 0 {
      Pow2Splits(m, n - 1);
      TwiceProduct(Pow2(m), Pow2(n - 1));
    }
  }

  lemma TwiceProduct(p: nat, q: nat)
    ensures 2 * (p * q) == p * (2 * q)
  {
  }

  /** The two limits are those of 32 and 64 bits. */
  lemma WordWidths()
    ensures Pow2(32) == U32_MAX + 1 && Pow2(64) == U64_MAX + 1
  {
    hide Pow2;
    assert Pow2(8) == 256 by { Pow2Of8(); }
    Pow2Splits(8, 8);
    Pow2Splits(16, 16);
    Pow2Splits(32, 32);
  }

  lemma Pow2Of8()
    ensures Pow2(8) == 256
  {
    assert Pow2(4) == 16;
  }

  /** The 32-bit power is the true power where that fits; past it a checked build has none and the other wraps. */
  lemma PowerExactly(profile: Profile, n: nat)
    ensures profile.Checked? ==> Pow2U32(profile, n) == if Pow2(n) <= U32_MAX then Some(Pow2(n)) else None
    ensures profile.Wrapping? ==> Pow2U32(profile, n) == Some(Pow2(n) % (U32_MAX + 1))
  {
    hide Pow2;
    WordWidths();
    if n < 32 {
      Pow2Monotone(n, 31);
      Pow2Splits(31, 1);
      Pow2Steps();
      assert Pow2(n) <= Pow2(31) && 2 * Pow2(31) == U32_MAX + 1;
    } else {
      Pow2Monotone(32, n);
      Pow2Splits(n - 32, 32);
      var k := Pow2(n - 32);
      assert Pow2(n) == k * (U32_MAX + 1);
      assert k * (U32_MAX + 1) % (U32_MAX + 1) == 0;
    }
  }

  lemma Pow2Steps()
    ensures Pow2(0) == 1 && Pow2(1) == 2
  {
  }

  /** The seconds slept after the first `failures` attempts failed. */
  function TotalDelay(base: nat, failures: nat): int {
    base * (Pow2(if failures <= 32 then failures else 32) - 1)
  }

  /** The delay after the `a`-th failure can be computed without a panic. */
  predicate DelayFits(profile: Profile, base: nat, a: nat)
    requires a > 0
  {
    if a <= 32 then base * Pow2(a - 1) <= U64_MAX else profile.Wrapping?
  }

  /** The delay after the `a`-th failure: a 32-bit power, then a product in 64-bit seconds. */
  function Backoff(profile: Profile, base: nat, a: nat): (delay: Option<nat>)
    requires a > 0
    ensures delay.Some? <==> DelayFits(profile, base, a)
    ensures delay.Some? && a <= 32 ==> TotalDelay(base, a - 1) + delay.value == TotalDelay(base, a)
    ensures delay.Some? && a > 32 ==> delay.value == 0
  {
    var multiplier := Pow2U32(profile, a - 1);
    if multiplier.None? || base * multiplier.value > U64_MAX then None
    else
      assert a <= 32 ==> TotalDelay(base, a - 1) + base * multiplier.value == TotalDelay(base, a) by {
        if a <= 32 { DelayStep(base, a - 1); }
      }
      Some(base * multiplier.value)
  }

  /** The largest multiplier is a 32-bit power and the longest delay is within 64-bit seconds. */
  predicate SafeBackoff(base: nat, maxRetries: nat) {
    maxRetries == 0 || (maxRetries <= 32 && base * Pow2(maxRetries - 1) <= U64_MAX)
  }

  lemma {:induction false} Pow2Monotone(m: nat, n: nat)
    requires m <= n
    ensures Pow2(m) <= Pow2(n)
  {
    if m < n {
      Pow2Monotone(m, n - 1);
    }
  }

  lemma MulMonotone(base: nat, p: nat, q: nat)
    requires p <= q
    ensures base * p <= base * q
  {
  }

  /** No delay of a checked build overflows exactly when the backoff is safe. */
  lemma NoOverflowExactly(base: nat, maxRetries: nat)
    ensures (forall a :: 1 <= a <= maxRetries ==> DelayFits(Checked, base, a)) <==> SafeBackoff(base, maxRetries)
  {
    if SafeBackoff(base, maxRetries) {
      forall a | 1 <= a <= maxRetries ensures DelayFits(Checked, base, a) {
        Pow2Monotone(a - 1, maxRetries - 1);
        MulMonotone(base, Pow2(a - 1), Pow2(maxRetries - 1));
      }
    } else {
      assert !DelayFits(Checked, base, maxRetries);
    }
  }

  lemma DelayStep(base: nat, failures: nat)
    requires failures < 32
    ensures TotalDelay(base, failures) + base * Pow2(failures) == TotalDelay(base, failures + 1)
  {
    var p := Pow2(failures);
    assert Pow2(failures + 1) == 2 * p;
    calc {
      base * (p - 1) + base * p;
      base * (p - 1 + p);
      base * (2 * p - 1);
    }
  }

  /**
    At most `maxRetries + 1` attempts; the first success, or else the last error; and before the
    attempt after `k` failures exactly `base * (2^k - 1)` seconds of sleep (for `k` up to 32).
   */
  method CreatePoolWithRetries<P, E>(
    connect: nat -> Result<P, E>, maxRetries: nat, base: nat, profile: Profile)
    returns (ending: Ending<P, E>, attempts: nat, slept: int)
    requires maxRetries <= U32_MAX && base <= U64_MAX
    ensures 1 <= attempts <= maxRetries + 1
    ensures forall k :: 0 <= k < attempts - 1 ==> connect(k).Failure?
    ensures slept == TotalDelay(base, attempts - 1)
    ensures ending.Connected? <==> connect(attempts - 1).Success?
    ensures ending.Connected? ==> connect(attempts - 1) == Success(ending.pool)
    ensures ending.GaveUp? ==> attempts == maxRetries + 1 && connect(maxRetries) == Failure(ending.error)
    ensures ending.Panicked? ==> attempts <= maxRetries && !DelayFits(profile, base, attempts)
    ensures !ending.Panicked? ==> forall a :: 1 <= a < attempts ==> DelayFits(profile, base, a)
    ensures ending.CounterWrapped? ==> profile.Wrapping? && maxRetries == U32_MAX && attempts == maxRetries + 1
    ensures SafeBackoff(base, maxRetries) ==> ending.Connected? || ending.GaveUp?
    ensures profile.Checked? && !SafeBackoff(base, maxRetries) && (forall k :: 0 <= k <= maxRetries ==> connect(k).Failure?)
            ==> ending.Panicked?
  {
    hide Pow2, SafeBackoff, TotalDelay;
    NoOverflowExactly(base, maxRetries);
    TotalDelayEnds(base);
    if SafeBackoff(base, maxRetries) {
      SafeBackoffIgnoresProfile(base, maxRetries, profile);
    }
    var attempt: nat := 0;
    attempts, slept := 0, 0;
    while true
      invariant attempt == attempts <= maxRetries
      invariant forall k :: 0 <= k < attempts ==> connect(k).Failure?
      invariant forall a :: 1 <= a <= attempts ==> DelayFits(profile, base, a)
      invariant slept == TotalDelay(base, attempts)
      decreases U32_MAX - attempt
    {
      var outcome := connect(attempts);
      attempts := attempts + 1;
      if outcome.Success? {
        return Connected(outcome.value), attempts, slept;
      }
      if attempt == U32_MAX {
        // A checked build has panicked long before.
        assert DelayFits(profile, base, attempt);
        return CounterWrapped, attempts, slept;
      }
      attempt := attempt + 1;
      if attempt > maxRetries {
        return GaveUp(outcome.error), attempts, slept;
      }
      var delay := Backoff(profile, base, attempt);
      if delay.None? {
        return Panicked, attempts, slept;
      }
      slept := slept + delay.value;
    }
  }

  lemma TotalDelayEnds(base: nat)
    ensures TotalDelay(base, 0) == 0
    ensures forall k: nat :: k >= 32 ==> TotalDelay(base, k) == TotalDelay(base, 32)
  {
  }

  /** When the backoff is safe the two ways of compiling compute the same delays. */
  lemma SafeBackoffIgnoresProfile(base: nat, maxRetries: nat, profile: Profile)
    requires SafeBackoff(base, maxRetries)
    ensures forall a :: 1 <= a <= maxRetries ==>
              DelayFits(profile, base, a) && Backoff(profile, base, a) == Backoff(Checked, base, a)
  {
    hide Pow2, TotalDelay;
    NoOverflowExactly(base, maxRetries);
    forall a | 1 <= a <= maxRetries
      ensures DelayFits(profile, base, a) && Backoff(profile, base, a) == Backoff(Checked, base, a)
    {
      assert DelayFits(Checked, base, a);
    }
  }
}
