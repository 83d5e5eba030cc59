/** The NRF retry delay, in nanoseconds, with the wrap-around of 64-bit integers. */
module Backoff {
  import opened Base

  const TWO31 := 0x8000_0000
  const TWO40 := 0x100_0000_0000
  const TWO63 := 0x8000_0000_0000_0000
  const TWO64 := 0x1_0000_0000_0000_0000
  const BASE := 5_000_000_000
  const MAX := 300_000_000_000

  function Pow2(n: nat): nat { if n == 0 then 1 else 2 * Pow2(n - 1) }

  function Wrap64(x: int): int { (x + TWO63) % TWO64 - TWO63 }

  /** 1 << uint(attempt): a negative attempt becomes a huge shift, and shifts of 64 or more give zero. */
  function Shifted(attempt: int): int { if 0 <= attempt < 64 then Wrap64(Pow2(attempt)) else 0 }

  /** The delay before jitter. */
  function Delay(attempt: int): int {
    var delay := Wrap64(BASE * Shifted(attempt));
    if delay > MAX || delay <= 0 then MAX else delay
  }

  lemma {:induction false} Pow2Split(a: nat, b: nat)
    ensures Pow2(a + b) == Pow2(a) * Pow2(b)
  {
    if b > 0 { Pow2Split(a, b - 1); }
  }

  lemma Pow2Values()
    ensures Pow2(5) == 32 && Pow2(6) == 64 && Pow2(25) == 0x200_0000 && Pow2(31) == TWO31
  {
    assert Pow2(4) == 16 && Pow2(8) == 256;
    Pow2Split(8, 8);
    Pow2Split(16, 8);
    Pow2Split(24, 4);
    Pow2Split(28, 3);
    assert Pow2(3) == 8 && Pow2(24) == 2 * Pow2(23) && Pow2(25) == 2 * Pow2(24);
  }

  lemma {:induction false} Pow2Grows(a: nat, b: nat)
    requires a <= b
    ensures Pow2(a) <= Pow2(b)
  {
    if a < b { Pow2Grows(a, b - 1); }
  }

  /** A wrapped multiple of 2^40 is again one, so it is not positive or at least 2^40. */
  lemma WrappedMultiple(k: int)
    ensures Wrap64(TWO40 * k) <= 0 || Wrap64(TWO40 * k) >= TWO40
  {
    var q := (TWO40 * k + TWO63) / TWO64;
    assert Wrap64(TWO40 * k) == TWO40 * (k - 0x100_0000 * q);
  }

  lemma WrappedPower(m: nat) returns (k: int)
    ensures Wrap64(TWO31 * Pow2(m)) == TWO31 * k
  {
    var q := (TWO31 * Pow2(m) + TWO63) / TWO64;
    k := Pow2(m) - 0x2_0000_0000 * q;
  }

  lemma NoWrap(x: int)
    requires -TWO63 <= x < TWO63
    ensures Wrap64(x) == x
  {
  }

  lemma SmallPower(attempt: nat)
    requires attempt <= 30
    ensures 0 < Pow2(attempt) <= 0x4000_0000
  {
    Pow2Values();
    assert Pow2(31) == 2 * Pow2(30);
    Pow2Grows(attempt, 30);
    Pow2Grows(0, attempt);
  }

  lemma SmallAttempt(attempt: nat)
    requires attempt <= 30
    ensures Delay(attempt) == Min(BASE * Pow2(attempt), MAX)
  {
    SmallPower(attempt);
    NoWrap(Pow2(attempt));
    NoWrap(BASE * Pow2(attempt));
    hide Wrap64, Pow2;
  }

  lemma LargeAttempt(attempt: nat)
    requires 31 <= attempt < 64
    ensures Delay(attempt) == MAX
  {
    Pow2Values();
    Pow2Split(31, attempt - 31);
    var k := WrappedPower(attempt - 31);
    hide Wrap64, Pow2;
    assert BASE * (TWO31 * k) == TWO40 * (9765625 * k);
    WrappedMultiple(9765625 * k);
  }

  /** For every attempt from zero on, the delay is the base doubled that often, up to the cap: no overflow of
      the 64-bit product ever shows. A negative attempt gives the cap. */
  lemma DelayIsCappedDoubling(attempt: int)
    ensures attempt >= 0 ==> Delay(attempt) == Min(BASE * Pow2(attempt), MAX)
    ensures attempt < 0 ==> Delay(attempt) == MAX
  {
    if 0 <= attempt <= 30 {
      SmallAttempt(attempt);
    } else if attempt >= 31 {
      Pow2Values();
      Pow2Grows(6, attempt);
      if attempt < 64 { LargeAttempt(attempt); }
      hide Pow2;
    }
  }

  lemma DelayRange(attempt: int)
    ensures BASE <= Delay(attempt) <= MAX
  {
    DelayIsCappedDoubling(attempt);
    if attempt >= 0 { Pow2Grows(0, attempt); }
  }

  /** The returned delay adds less than a fifth of jitter: at least five seconds and below six minutes. `random`
      is what the random source yields. */
  method ExponentialBackoff(attempt: int, random: nat) returns (delay: int)
    ensures Delay(attempt) <= delay < Delay(attempt) + Delay(attempt) / 5
    ensures BASE <= delay < 360_000_000_000
  {
    DelayRange(attempt);
    delay := Wrap64(BASE * Shifted(attempt));
    if delay > MAX || delay <= 0 {
      delay := MAX;
    }
    var jitter := random % (delay / 5);
    delay := delay + jitter;
  }
}
