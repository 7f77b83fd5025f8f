/** The file time normaliser of the sync commands. */
module Timestamps {

  const MIN_TIMESTAMP: int := 0x01c0_0000_0000_0000
  const MAX_TIMESTAMP: int := 0x023f_ffff_ffff_ffff
  const TIME_RANGE: int := MAX_TIMESTAMP - MIN_TIMESTAMP
  const TWO_28: int := 0x1000_0000
  const TWO_64: int := 0x1_0000_0000_0000_0000

  type u64 = x: int | 0 <= x < 0x1_0000_0000_0000_0000

  /** The bits of a timestamp that survive a round trip through the device. */
  function Usable(t: u64): (r: u64)
    ensures r <= t < r + TWO_28 && r % TWO_28 == 0
  {
    t - t % TWO_28
  }

  /** Seconds shifted left by 28 bits in 64-bit arithmetic. */
  function Shifted(seconds: int): u64
  {
    seconds * TWO_28 % TWO_64
  }

  /** The value congruent to `t` modulo the range that repeated subtraction stops at. */
  function Wrapped(t: u64): (r: u64)
    requires t >= MIN_TIMESTAMP
    ensures MIN_TIMESTAMP <= r <= MAX_TIMESTAMP
    decreases t
  {
    if t <= MAX_TIMESTAMP then t else Wrapped(t - TIME_RANGE)
  }

  /** Only whole ranges are taken off. */
  lemma {:induction false} WrappedCongruent(t: u64) returns (k: nat)
    requires t >= MIN_TIMESTAMP
    ensures t == Wrapped(t) + k * TIME_RANGE
    decreases t
  {
    k := 0;
    if t > MAX_TIMESTAMP {
      k := WrappedCongruent(t - TIME_RANGE);
      k := k + 1;
    }
  }

  function SafeTimestamp(seconds: int): (r: u64)
  {
    var t := Shifted(seconds);
    Usable(Wrapped(if t < MIN_TIMESTAMP then t + MIN_TIMESTAMP else t))
  }

  /** The subtracting loop terminates and leaves a value the device accepts. */
  method SafeXFATTimestamp(seconds: int) returns (change: u64)
    ensures change == SafeTimestamp(seconds)
    ensures MIN_TIMESTAMP <= change <= MAX_TIMESTAMP && change % TWO_28 == 0
  {
    change := Shifted(seconds);
    if change < MIN_TIMESTAMP {
      change := change + MIN_TIMESTAMP;
    }
    ghost var start := change;
    while change > MAX_TIMESTAMP
      invariant change >= MIN_TIMESTAMP && Wrapped(change) == Wrapped(start)
      decreases change
    {
      change := change - TIME_RANGE;
    }
    UsableInRange(change);
    change := Usable(change);
  }

  lemma UsableInRange(t: u64)
    requires MIN_TIMESTAMP <= t <= MAX_TIMESTAMP
    ensures MIN_TIMESTAMP <= Usable(t) <= MAX_TIMESTAMP
  {
    assert MIN_TIMESTAMP % TWO_28 == 0;
    assert MIN_TIMESTAMP == 0x1c00_0000 * TWO_28;
    assert t / TWO_28 >= 0x1c00_0000;
  }

  /** The device stores a slightly later time; the comparison mask hides the difference. */
  lemma SkewIsHidden(seconds: int, skew: nat)
    requires skew < TWO_28
    ensures SafeTimestamp(seconds) + skew < TWO_64
    ensures Usable(SafeTimestamp(seconds) + skew) == SafeTimestamp(seconds)
  {
    var t := Shifted(seconds);
    UsableInRange(Wrapped(if t < MIN_TIMESTAMP then t + MIN_TIMESTAMP else t));
    var s := SafeTimestamp(seconds);
    assert (s + skew) % TWO_28 == skew;
  }

  // ---------------------------------------------------------------- when two times compare equal

  const MIN_SECONDS: int := 0x1c00_0000
  const PERIOD: int := 0x800_0000
  const TWO_36: int := 0x10_0000_0000

  /** The seconds the wrapping starts from: 36 bits of them survive the shift, and small ones are moved up. */
  function Raised(seconds: int): (u: nat)
    ensures MIN_SECONDS <= u < TWO_36
  {
    var u := seconds % TWO_36;
    if u < MIN_SECONDS then u + MIN_SECONDS else u
  }

  lemma ShiftedIs(seconds: int)
    ensures Shifted(seconds) == seconds % TWO_36 * TWO_28
  {
    var q, u := seconds / TWO_36, seconds % TWO_36;
    assert seconds * TWO_28 == q * TWO_64 + u * TWO_28;
  }

  lemma OnePeriod(x: nat)
    ensures x % PERIOD == if x < PERIOD then x else (x - PERIOD) % PERIOD
  {
  }

  lemma UsableIs(u: nat, ticks: nat)
    requires u < TWO_36 && ticks < TWO_28
    ensures Usable(u * TWO_28 + ticks) == u * TWO_28
  {
    assert (u * TWO_28 + ticks) % TWO_28 == ticks;
  }

  /** Each round of the loop takes off 2^27 seconds less one tick, and the ticks left over are masked. */
  lemma {:induction false} WrappedSeconds(u: nat, ticks: nat)
    requires u >= MIN_SECONDS && u + ticks * PERIOD < TWO_36
    ensures u * TWO_28 + ticks < TWO_64 && u * TWO_28 + ticks >= MIN_TIMESTAMP
    ensures Usable(Wrapped(u * TWO_28 + ticks)) == (MIN_SECONDS + (u - MIN_SECONDS) % PERIOD) * TWO_28
    decreases u
  {
    OnePeriod(u - MIN_SECONDS);
    if u >= MIN_SECONDS + PERIOD {
      assert (u - PERIOD) * TWO_28 + (ticks + 1) == u * TWO_28 + ticks - TIME_RANGE;
      WrappedSeconds(u - PERIOD, ticks + 1);
    } else {
      UsableIs(u, ticks);
    }
  }

  /** The normalised time in closed form: it repeats every 2^27 seconds. */
  lemma SafeTimestampIs(seconds: int)
    ensures SafeTimestamp(seconds) == (MIN_SECONDS + (Raised(seconds) - MIN_SECONDS) % PERIOD) * TWO_28
  {
    ShiftedIs(seconds);
    WrappedSeconds(Raised(seconds), 0);
  }

  lemma SameRemainder(a: nat, b: nat)
    ensures a % PERIOD == b % PERIOD <==> (a - b) % PERIOD == 0
  {
    var p, q := a / PERIOD, b / PERIOD;
    assert a - b == (p - q) * PERIOD + (a % PERIOD - b % PERIOD);
  }

  /** Two file times compare equal exactly when they are a multiple of 2^27 seconds apart, once raised. */
  lemma SameTimeIff(s: int, t: int)
    ensures SafeTimestamp(s) == SafeTimestamp(t) <==> (Raised(s) - Raised(t)) % PERIOD == 0
  {
    SafeTimestampIs(s);
    SafeTimestampIs(t);
    SameRemainder(Raised(s) - MIN_SECONDS, Raised(t) - MIN_SECONDS);
  }
}
