/** The retry delays, in 64-bit arithmetic. */
module Backoff {
  newtype Int64 = x: int | -0x8000_0000_0000_0000 <= x < 0x8000_0000_0000_0000

  /** Two's complement wrap-around. */
  function Wrap(x: int): Int64 {
    ((x + 0x8000_0000_0000_0000) % 0x1_0000_0000_0000_0000 - 0x8000_0000_0000_0000) as Int64
  }

  /** The low 31 bits, of a negative number too. */
  function Low31(x: int): (r: Int64)
    ensures 0 <= r as int < 0x8000_0000
  {
    (x % 0x8000_0000) as Int64
  }

  function Min(a: int, b: int): int {
    if a < b then a else b
  }

  /** base * 2^n. */
  function Doubled(base: nat, n: nat): nat {
    if n == 0 then base else 2 * Doubled(base, n - 1)
  }

  function Pow2(n: nat): nat {
    if n == 0 then 1 else 2 * Pow2(n - 1)
  }

  lemma {:induction false} TwiceProduct(a: int, b: int)
    ensures a * (2 * b) == 2 * (a * b)
  {
  }

  lemma {:induction false} DoubledIsProduct(base: nat, n: nat)
    ensures Doubled(base, n) == base * Pow2(n)
  {
    if n > 0 {
      DoubledIsProduct(base, n - 1);
      TwiceProduct(base, Pow2(n - 1));
    }
  }

  lemma {:induction false} DoublingGrows(base: nat, m: nat, n: nat)
    requires m < n
    ensures Doubled(base, n) >= 2 * Doubled(base, m)
  {
    if m < n - 1 {
      DoublingGrows(base, m, n - 1);
    }
  }

  lemma {:induction false} LowShift(x: int, k: int)
    ensures (x - k * 0x8000_0000) % 0x8000_0000 == x % 0x8000_0000
  {
  }

  /** Wrapping subtracts a multiple of 2^64. */
  lemma {:induction false} WrapShift(x: int)
    ensures (x - Wrap(x) as int) % 0x1_0000_0000_0000_0000 == 0
    ensures Wrap(x) as int == x - (x + 0x8000_0000_0000_0000) / 0x1_0000_0000_0000_0000 * 0x1_0000_0000_0000_0000
  {
  }

  lemma {:induction false} WrapKeepsLowBits(x: int)
    ensures Low31(Wrap(x) as int) == Low31(x)
  {
    WrapShift(x);
    LowShift(x, (x + 0x8000_0000_0000_0000) / 0x1_0000_0000_0000_0000 * 0x2_0000_0000);
  }

  /** The seed mixed with the attempt, taken in unbounded arithmetic. */
  function Mixed(seed: int, attempt: int): Int64 {
    Low31(seed * 2654435761 + attempt * 40503)
  }

  lemma {:induction false} LowIsCongruent(x: int)
    ensures (x - Low31(x) as int) % 0x8000_0000 == 0
  {
  }

  lemma {:induction false} MixedWraps(seed: Int64, attempt: Int64)
    ensures Low31(Wrap(Wrap(seed as int * 2654435761) as int + Wrap(attempt as int * 40503) as int) as int) ==
            Mixed(seed as int, attempt as int)
  {
    var a, b := seed as int * 2654435761, attempt as int * 40503;
    WrapKeepsLowBits(a);
    WrapKeepsLowBits(b);
    WrapKeepsLowBits(Wrap(a) as int + Wrap(b) as int);
    LowSum(Wrap(a) as int, Wrap(b) as int, a, b);
  }

  /** The value masked to 31 bits after three wrap-arounds is congruent to the unbounded sum modulo
      2^31: wrapping around at 64 bits, wherever it happens, does not change the mixed seed. */
  lemma {:induction false} MixIgnoresWrap(seed: Int64, attempt: Int64)
    ensures var m := Low31(Wrap(Wrap(seed as int * 2654435761) as int + Wrap(attempt as int * 40503) as int) as int);
            && 0 <= m as int < 0x8000_0000
            && (seed as int * 2654435761 + attempt as int * 40503 - m as int) % 0x8000_0000 == 0
  {
    MixedWraps(seed, attempt);
    LowIsCongruent(seed as int * 2654435761 + attempt as int * 40503);
  }

  lemma {:induction false} LowSum(a: int, b: int, c: int, d: int)
    requires Low31(a) == Low31(c) && Low31(b) == Low31(d)
    ensures Low31(a + b) == Low31(c + d)
  {
  }

  /** The delay without its jitter: capped doubling, with no overflow in sight. */
  function Capped(base: nat, max: nat, attempt: nat): nat {
    Min(Doubled(base, attempt), max)
  }

  /** Less than a quarter of the delay, from the mixed seed; nothing for a tiny delay. */
  function Jitter(d: nat, mixed: int): (j: nat)
    ensures j <= d && (d >= 4 ==> j < d / 4)
  {
    if d < 4 then 0 else mixed % (d / 4)
  }

  function DelayOf(attempt: nat, base: nat, max: nat, seed: int): int {
    var d := Capped(base, max, attempt);
    d + Jitter(d, Mixed(seed, attempt) as int)
  }

  /** A delay: the base doubled `attempt` times, at most the cap, and the low 31 bits of the mixed seed
      reduced below a quarter of that. */
  ghost predicate IsDelay(delay: int, attempt: nat, base: nat, max: nat, seed: int) {
    var d := if base * Pow2(attempt) > max then max else base * Pow2(attempt);
    delay == d + if d < 4 then 0 else (seed * 2654435761 + attempt * 40503) % 0x8000_0000 % (d / 4)
  }

  lemma {:induction false} DelayOfIs(attempt: nat, base: nat, max: nat, seed: int)
    ensures IsDelay(DelayOf(attempt, base, max, seed), attempt, base, max, seed)
  {
    DoubledIsProduct(base, attempt);
  }

  /** Up to n doublings in 64-bit arithmetic, none once the cap is reached. */
  function Looped(d: Int64, max: Int64, n: nat): Int64
    decreases n
  {
    if n == 0 || d >= max then d else Looped(Wrap(d as int * 2), max, n - 1)
  }

  lemma {:induction false} DoubledFirst(base: nat, n: nat)
    requires n > 0
    ensures Doubled(base, n) == Doubled(2 * base, n - 1)
  {
    if n > 1 {
      DoubledFirst(base, n - 1);
    }
  }

  lemma {:induction false} LoopedIsCapped(d: Int64, max: Int64, n: nat)
    requires 0 <= d && 0 <= max <= 0x4000_0000_0000_0000
    ensures Min(Looped(d, max, n) as int, max as int) == Capped(d as int, max as int, n)
    ensures 0 <= Looped(d, max, n)
    decreases n
  {
    if n > 0 {
      if d >= max {
        DoublingGrows(d as int, 0, n);
      } else {
        assert Wrap(d as int * 2) as int == d as int * 2;
        LoopedIsCapped(Wrap(d as int * 2), max, n - 1);
        DoubledFirst(d as int, n);
      }
    }
  }

  /** The loop computes min(base * 2^n, max) for every base and attempt exactly if the cap is at most
      2^62; above that, doubling can leave 64 bits before it reaches the cap. */
  lemma {:induction false} LoopExactIff(max: Int64)
    requires max >= 0
    ensures max <= 0x4000_0000_0000_0000 <==>
            forall base: Int64, n: nat | base >= 0 ::
              Min(Looped(base, max, n) as int, max as int) == Min(base as int * Pow2(n), max as int)
  {
    if max <= 0x4000_0000_0000_0000 {
      forall base: Int64, n: nat | base >= 0
        ensures Min(Looped(base, max, n) as int, max as int) == Min(base as int * Pow2(n), max as int)
      {
        LoopedIsCapped(base, max, n);
        DoubledIsProduct(base as int, n);
      }
    } else {
      var base: Int64 := 0x4000_0000_0000_0000;
      var n: nat := 1;
      assert Looped(base, max, n) == Looped(Wrap(base as int * 2), max, n - 1) == -0x8000_0000_0000_0000;
      assert base as int * Pow2(n) >= 0;
      assert Min(Looped(base, max, n) as int, max as int) != Min(base as int * Pow2(n), max as int);
    }
  }

  function Smaller(a: Int64, b: Int64): Int64 {
    if a > b then b else a
  }

  /** A delay with its jitter, in 64 bits. */
  function Jittered(d: Int64, attempt: Int64, seed: Int64): Int64 {
    if d < 4 then d else Wrap(d as int + Jitter(d as int, Mixed(seed as int, attempt as int) as int))
  }

  lemma {:induction false} JitterFits(d: Int64, attempt: Int64, seed: Int64)
    requires 0 <= d <= 0x4000_0000_0000_0000
    ensures Jittered(d, attempt, seed) as int ==
            d as int + Jitter(d as int, Mixed(seed as int, attempt as int) as int)
  {
  }

  /** The jitter never shortens the delay and stays below a quarter of it. */
  lemma {:induction false} DelayBounds(attempt: nat, base: nat, max: nat, seed: int)
    ensures var d, delay := Capped(base, max, attempt), DelayOf(attempt, base, max, seed);
            d <= delay && if d < 4 then delay == d else delay < d + d / 4
  {
  }

  /** Inside 64 bits that is the capped doubling plus the mixed seed reduced below a quarter of it. */
  lemma {:induction false} DelayIsCapped(attempt: Int64, base: Int64, max: Int64, seed: Int64)
    requires attempt >= 0 && 0 <= base && 0 <= max <= 0x4000_0000_0000_0000
    ensures var delay := Jittered(Smaller(Looped(base, max, attempt as int), max), attempt, seed) as int;
            && delay == DelayOf(attempt as int, base as int, max as int, seed as int)
            && IsDelay(delay, attempt as int, base as int, max as int, seed as int)
  {
    DelayOfIs(attempt as int, base as int, max as int, seed as int);
    LoopedIsCapped(base, max, attempt as int);
    var d := Smaller(Looped(base, max, attempt as int), max);
    assert d as int == Capped(base as int, max as int, attempt as int);
    JitterFits(d, attempt, seed);
  }

  lemma {:induction false} SafeDelay(attempt: Int64, base: Int64, max: Int64, seed: Int64)
    ensures attempt >= 0 && 0 <= base && 0 <= max <= 0x4000_0000_0000_0000 ==>
              IsDelay(Jittered(Smaller(Looped(base, max, attempt as int), max), attempt, seed) as int,
                      attempt as int, base as int, max as int, seed as int)
  {
    if attempt >= 0 && 0 <= base && 0 <= max <= 0x4000_0000_0000_0000 {
      DelayIsCapped(attempt, base, max, seed);
    }
  }

  /** The doubling loop, in 64 bits, and the cap. */
  method CappedDoubling(attempt: Int64, base: Int64, max: Int64) returns (d: Int64)
    ensures d == Smaller(Looped(base, max, if attempt < 0 then 0 else attempt as int), max)
  {
    d := base;
    var i: Int64 := 0;
    while i < attempt && d < max
      invariant 0 <= i && (attempt >= 0 ==> i <= attempt) && (attempt < 0 ==> i == 0 && d == base)
      invariant attempt >= 0 ==>
          Looped(base, max, attempt as int) == Looped(d, max, (attempt - i) as int)
    {
      d := Wrap(d as int * 2);
      i := i + 1;
    }
    if d > max {
      d := max;
    }
  }

  /** A delay with the jitter on top: the seed is mixed in 64 bits and masked. */
  method WithJitter(d: Int64, attempt: Int64, seed: Int64) returns (delay: Int64)
    ensures delay == Jittered(d, attempt, seed)
  {
    var span := d / 4;
    if span <= 0 {
      return d;
    }
    MixedWraps(seed, attempt);
    var x := Low31(Wrap(Wrap(seed as int * 2654435761) as int + Wrap(attempt as int * 40503) as int) as int);
    delay := Wrap(d as int + (x % span) as int);
  }

  /** The delay for all arguments, wrap-around included. */
  method Delay(attempt: Int64, base: Int64, max: Int64, seed: Int64) returns (delay: Int64)
    ensures delay == Jittered(Smaller(Looped(base, max, if attempt < 0 then 0 else attempt as int), max), attempt, seed)
    ensures attempt >= 0 && 0 <= base && 0 <= max <= 0x4000_0000_0000_0000 ==>
              IsDelay(delay as int, attempt as int, base as int, max as int, seed as int)
  {
    var d := CappedDoubling(attempt, base, max);
    delay := WithJitter(d, attempt, seed);
    SafeDelay(attempt, base, max, seed);
  }

  /** While doubling stays within the cap, every attempt waits strictly longer than every earlier
      one, whatever the jitter of the two. */
  lemma {:induction false} DelaysGrow(earlier: nat, later: nat, base: nat, max: nat, seed: int)
    requires earlier < later && base > 0 && Doubled(base, later) <= max
    ensures DelayOf(earlier, base, max, seed) < DelayOf(later, base, max, seed)
  {
    DoublingGrows(base, earlier, later);
    Positive(base, earlier);
    DelayBounds(earlier, base, max, seed);
    DelayBounds(later, base, max, seed);
  }

  lemma {:induction false} Positive(base: nat, n: nat)
    requires base > 0
    ensures Doubled(base, n) > 0
  {
    if n > 0 {
      Positive(base, n - 1);
    }
  }

  // ---------------------------------------------------------------------------------------------
  // The retry loop.

  const TWO_MINUTES: Int64 := 120_000_000_000

  /** Two minutes in nanoseconds, or the base if that is longer. */
  ghost function RetryLimit(base: nat): (limit: nat)
    ensures limit >= base && limit >= 120_000_000_000 && (limit == base || limit == 120_000_000_000)
  {
    if base > 120_000_000_000 then base else 120_000_000_000
  }

  function RetryCap(base: Int64): Int64 {
    if base > TWO_MINUTES then base else TWO_MINUTES
  }

  /** One round of the retry loop: the attempt number starts over when nothing is left, and counts up
      otherwise; the cap is two minutes, or the base if that is longer. */
  method NextWait(attempt: Int64, remaining: nat, base: Int64, seed: Int64) returns (next: Int64, wait: Int64)
    requires 0 <= attempt < 0x7FFF_FFFF_FFFF_FFFF
    ensures next == if remaining == 0 then 0 else attempt + 1
    ensures wait == Jittered(Smaller(Looped(base, RetryCap(base), next as int), RetryCap(base)), next, seed)
    ensures 0 <= base <= 0x4000_0000_0000_0000 ==>
              IsDelay(wait as int, next as int, base as int, RetryLimit(base as int), seed as int)
    ensures 0 <= base <= 0x4000_0000_0000_0000 && remaining == 0 ==>
              base <= wait && (base >= 4 ==> (wait as int) < base as int + base as int / 4)
  {
    var max := TWO_MINUTES;
    if base > max {
      max := base;
    }
    next := attempt;
    if remaining == 0 {
      next := 0;
    } else {
      next := next + 1;
    }
    wait := Delay(next, base, max, seed);
    if 0 <= base <= 0x4000_0000_0000_0000 {
      DelayIsCapped(next, base, max, seed);
      DelayBounds(next as int, base as int, max as int, seed as int);
    }
  }
}
