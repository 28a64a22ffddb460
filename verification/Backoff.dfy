/** `Config::get_reconnection_delay` over exact reals: the exponential delay curve, its casts and caps. */
module Backoff {
  const I31: nat := 0x8000_0000
  const U32: nat := 0x1_0000_0000
  const I64: nat := 0x8000_0000_0000_0000

  /** `attempts as i32` wraps. */
  function AsI32(attempts: nat): int
    requires attempts < U32
  {
    if attempts < I31 then attempts else attempts - U32
  }

  function Pow(m: real, n: nat): real {
    if n == 0 then 1.0 else m * Pow(m, n - 1)
  }

  lemma {:induction false} PowAtLeastOne(m: real, n: nat)
    requires m >= 1.0
    ensures Pow(m, n) >= 1.0
  {
    if n > 0 {
      PowAtLeastOne(m, n - 1);
    }
  }

  /** `multiplier.powi(e)` */
  function Powi(m: real, e: int): (p: real)
    requires m >= 1.0
    ensures p > 0.0
  {
    PowAtLeastOne(m, if e >= 0 then e else -e);
    if e >= 0 then Pow(m, e) else 1.0 / Pow(m, -e)
  }

  /** `x as i64` for a non-negative float truncates and saturates. */
  function AsI64(x: real): int
    requires x >= 0.0
  {
    if x.Floor < I64 then x.Floor else I64 - 1
  }

  /** The delay in milliseconds. Settings are those that the configuration validates: a multiplier of
      at least one, durations that fit the signed cast. */
  function Delay(initial: nat, max: nat, multiplier: real, attempts: nat): int
    requires multiplier >= 1.0 && initial < I64 && max < I64 && attempts < U32
  {
    if attempts == 0 then initial
    else
      var delay := AsI64(Scaled(initial, multiplier, AsI32(attempts)));
      if delay < max then delay else max
  }

  function Scaled(initial: nat, multiplier: real, e: int): (x: real)
    requires multiplier >= 1.0
    ensures x >= 0.0
  {
    initial as real * Powi(multiplier, e)
  }

  lemma {:induction false} PowMonotone(m: real, i: nat, j: nat)
    requires m >= 1.0 && i <= j
    ensures Pow(m, i) <= Pow(m, j)
    decreases j
  {
    if i < j {
      PowMonotone(m, i, j - 1);
      PowAtLeastOne(m, j - 1);
      Times(Pow(m, j - 1), 1.0, m);
    }
  }

  lemma Times(x: real, a: real, b: real)
    requires x >= 0.0 && a <= b
    ensures x * a <= x * b && a * x <= b * x
  {
  }

  /** Truncating and capping preserve order. */
  lemma CapMonotone(x: real, y: real, max: nat)
    requires 0.0 <= x <= y && max < I64
    ensures var a, b := AsI64(x), AsI64(y);
            (if a < max then a else max) <= (if b < max then b else max)
  {
    assert x.Floor <= y.Floor;
  }

  lemma ScaledMonotone(initial: nat, multiplier: real, a: nat, b: nat)
    requires multiplier >= 1.0 && a <= b
    ensures Scaled(initial, multiplier, a) <= Scaled(initial, multiplier, b)
    ensures Scaled(initial, multiplier, 0) == initial as real
  {
    PowMonotone(multiplier, a, b);
    Times(initial as real, Pow(multiplier, a), Pow(multiplier, b));
    assert Powi(multiplier, 0) == 1.0;
  }

  /** The curve: from the initial delay upwards, never down, never past the maximum. */
  lemma DelayCurve(initial: nat, max: nat, multiplier: real, a: nat, b: nat)
    requires multiplier >= 1.0 && initial <= max < I64 && a <= b < I31
    ensures initial <= Delay(initial, max, multiplier, a) <= Delay(initial, max, multiplier, b) <= max
  {
    hide Scaled;
    ScaledMonotone(initial, multiplier, 0, a);
    ScaledMonotone(initial, multiplier, a, b);
    var start := Scaled(initial, multiplier, 0);
    CapMonotone(start, Scaled(initial, multiplier, a), max);
    CapMonotone(Scaled(initial, multiplier, a), Scaled(initial, multiplier, b), max);
    assert start.Floor == initial;
  }

  /** The cap is not applied to the first delay, so it holds throughout exactly when the settings are in
      order. */
  lemma CappedIff(initial: nat, max: nat, multiplier: real)
    requires multiplier >= 1.0 && initial < I64 && max < I64
    ensures (forall a: nat :: a < U32 ==> Delay(initial, max, multiplier, a) <= max) <==> initial <= max
  {
    assert Delay(initial, max, multiplier, 0) == initial;
  }

  /** Bernoulli's inequality */
  lemma {:induction false} Bernoulli(x: real, n: nat)
    requires x >= 0.0
    ensures Pow(1.0 + x, n) >= 1.0 + n as real * x
  {
    if n > 0 {
      Bernoulli(x, n - 1);
      var k := (n - 1) as real;
      var p := Pow(1.0 + x, n - 1);
      Times(1.0 + x, 1.0 + k * x, p);
      assert (1.0 + x) * (1.0 + k * x) == 1.0 + (k + 1.0) * x + k * x * x;
      NonNegative(k, x);
    }
  }

  lemma NonNegative(k: real, x: real)
    requires k >= 0.0 && x >= 0.0
    ensures k * x * x >= 0.0
  {
    assert k * x >= 0.0;
  }

  /** A multiplier above one reaches the maximum: from the attempt on at which linear growth would. */
  lemma DelayReachesMax(initial: nat, max: nat, multiplier: real, attempts: nat)
    requires multiplier > 1.0 && 1 <= initial <= max < I64 && 0 < attempts < I31
    requires initial as real * (attempts as real * (multiplier - 1.0)) >= max as real
    ensures Delay(initial, max, multiplier, attempts) == max
  {
    var x := multiplier - 1.0;
    Bernoulli(x, attempts);
    var p := Pow(multiplier, attempts);
    assert 1.0 + x == multiplier;
    Times(initial as real, attempts as real * x, p);
    assert Scaled(initial, multiplier, attempts) >= max as real;
    assert (max as real).Floor == max;
    assert Scaled(initial, multiplier, attempts).Floor >= max;
  }

  /** The exact curve; from 2^31 attempts on it comes back from below, since the count is read as negative. */
  ghost function Curve(initial: nat, multiplier: real, attempts: nat): real
    requires multiplier >= 1.0 && attempts < 0x1_0000_0000
  {
    if attempts < 0x8000_0000 then initial as real * Pow(multiplier, attempts)
    else
      PowAtLeastOne(multiplier, 0x1_0000_0000 - attempts);
      initial as real / Pow(multiplier, 0x1_0000_0000 - attempts)
  }

  /** At every count but zero the delay is the exact curve, rounded down to a millisecond and cut at the maximum. */
  lemma DelayIsCurve(initial: nat, max: nat, multiplier: real, attempts: nat)
    requires multiplier >= 1.0 && initial < I64 && max < I64 && attempts < 0x1_0000_0000
    ensures var d, x := Delay(initial, max, multiplier, attempts), Curve(initial, multiplier, attempts);
            if attempts == 0 then d == initial
            else if x >= max as real then d == max
            else d as real <= x < d as real + 1.0
  {
    hide Pow;
    if attempts > 0 {
      ScaledIsCurve(initial, multiplier, attempts);
      FloorReaches(Curve(initial, multiplier, attempts), max);
    }
  }

  lemma ScaledIsCurve(initial: nat, multiplier: real, attempts: nat)
    requires multiplier >= 1.0 && attempts < 0x1_0000_0000
    ensures Scaled(initial, multiplier, AsI32(attempts)) == Curve(initial, multiplier, attempts)
  {
    if attempts >= 0x8000_0000 {
      var n := 0x1_0000_0000 - attempts;
      PowAtLeastOne(multiplier, n);
      hide Pow;
      assert AsI32(attempts) == -n && -AsI32(attempts) == n;
      Quotient(initial as real, Pow(multiplier, n));
    } else {
      hide Pow;
    }
  }

  lemma Quotient(a: real, p: real)
    requires p > 0.0
    ensures a * (1.0 / p) == a / p
  {
  }

  /** The delay is the maximum exactly where the exact curve has reached it. */
  lemma DelayIsMaxIff(initial: nat, max: nat, multiplier: real, attempts: nat)
    requires multiplier >= 1.0 && initial <= max < I64 && attempts < I31
    ensures Delay(initial, max, multiplier, attempts) == max
            <==> initial as real * Pow(multiplier, attempts) >= max as real
  {
    var x := Scaled(initial, multiplier, attempts);
    assert x == initial as real * Pow(multiplier, attempts);
    FloorReaches(x, max);
    if attempts == 0 {
      assert Pow(multiplier, 0) == 1.0;
    }
  }

  lemma FloorReaches(x: real, max: nat)
    ensures x.Floor >= max <==> x >= max as real
  {
  }

  /** From some attempt on, up to the count at which the exponent wraps, the delay is constantly the maximum. */
  ghost predicate Settles(initial: nat, max: nat, multiplier: real)
    requires multiplier >= 1.0 && initial < I64 && max < I64
  {
    exists from: nat :: from < I31 && MaxFrom(initial, max, multiplier, from)
  }

  ghost predicate MaxFrom(initial: nat, max: nat, multiplier: real, from: nat)
    requires multiplier >= 1.0 && initial < I64 && max < I64
  {
    forall a: nat :: from <= a < I31 ==> Delay(initial, max, multiplier, a) == max
  }

  /** Once at the maximum, always at the maximum. */
  lemma StaysAtMax(initial: nat, max: nat, multiplier: real, from: nat)
    requires multiplier >= 1.0 && initial <= max < I64 && from < I31
    ensures MaxFrom(initial, max, multiplier, from) <==> Delay(initial, max, multiplier, from) == max
  {
    hide Delay;
    if Delay(initial, max, multiplier, from) == max {
      forall a: nat | from <= a < I31 ensures Delay(initial, max, multiplier, a) == max {
        DelayCurve(initial, max, multiplier, from, a);
      }
    }
  }

  /** The delay settles at the maximum if and only if the exact curve reaches it at the last count before the
      exponent wraps. */
  lemma DelayIsEventuallyMaxIff(initial: nat, max: nat, multiplier: real)
    requires multiplier >= 1.0 && initial <= max < I64
    ensures Settles(initial, max, multiplier)
            <==> initial as real * Pow(multiplier, I31 - 1) >= max as real
  {
    hide Delay, MaxFrom, Pow;
    DelayIsMaxIff(initial, max, multiplier, I31 - 1);
    StaysAtMax(initial, max, multiplier, I31 - 1);
    if Settles(initial, max, multiplier) {
      var from: nat :| from < I31 && MaxFrom(initial, max, multiplier, from);
      StaysAtMaxLater(initial, max, multiplier, from, I31 - 1);
    }
  }

  lemma StaysAtMaxLater(initial: nat, max: nat, multiplier: real, from: nat, a: nat)
    requires multiplier >= 1.0 && initial < I64 && max < I64 && from <= a < I31
    requires MaxFrom(initial, max, multiplier, from)
    ensures Delay(initial, max, multiplier, a) == max
  {
  }

  /** The exact curve itself, whose exponent does not wrap, reaches every maximum for good under any multiplier
      above one. */
  lemma CurveIsUnbounded(initial: nat, max: nat, multiplier: real) returns (from: nat)
    requires multiplier > 1.0 && initial >= 1
    ensures forall a: nat :: from <= a ==> initial as real * Pow(multiplier, a) >= max as real
  {
    var x := multiplier - 1.0;
    var needed := max as real / x;
    from := needed.Floor + 1;
    hide Pow;
    forall a: nat | from <= a ensures initial as real * Pow(multiplier, a) >= max as real {
      assert a as real >= needed;
      CurveReaches(initial, max, x, needed, a);
      assert 1.0 + x == multiplier;
    }
  }

  lemma CurveReaches(initial: nat, max: nat, x: real, needed: real, a: nat)
    requires x > 0.0 && needed == max as real / x && a as real >= needed && initial >= 1
    ensures initial as real * Pow(1.0 + x, a) >= max as real
  {
    hide Pow;
    Product(max as real, x, needed, a as real, initial as real);
    Bernoulli(x, a);
    Times(initial as real, a as real * x, Pow(1.0 + x, a));
  }

  lemma Product(max: real, x: real, needed: real, a: real, initial: real)
    requires x > 0.0 && max >= 0.0 && needed == max / x && a >= needed && initial >= 1.0
    ensures initial * (a * x) >= max
  {
    assert needed * x == max;
    Times(x, needed, a);
    var y := a * x;
    assert y >= max;
    Times(y, 1.0, initial);
    assert 1.0 * y <= initial * y;
  }

  /** Where linear growth gets there before the exponent wraps, the delay settles. */
  lemma LinearGrowthSettles(initial: nat, max: nat, multiplier: real, attempts: nat)
    requires multiplier > 1.0 && 1 <= initial <= max < I64 && 0 < attempts < I31
    requires initial as real * (attempts as real * (multiplier - 1.0)) >= max as real
    ensures MaxFrom(initial, max, multiplier, attempts) && Settles(initial, max, multiplier)
  {
    DelayReachesMax(initial, max, multiplier, attempts);
    StaysAtMax(initial, max, multiplier, attempts);
  }

  /** Bernoulli's inequality from the other side */
  lemma {:induction false} ReverseBernoulli(x: real, n: nat)
    requires x >= 0.0
    ensures (1.0 - n as real * x) * Pow(1.0 + x, n) <= 1.0
  {
    if n > 0 {
      var k, p := (n - 1) as real, Pow(1.0 + x, n - 1);
      ReverseBernoulli(x, n - 1);
      PowAtLeastOne(1.0 + x, n - 1);
      assert n as real == k + 1.0;
      assert (1.0 - (k + 1.0) * x) * (1.0 + x) == (1.0 - k * x) - (k + 1.0) * x * x;
      NonNegative(k + 1.0, x);
      Times(p, (1.0 - (k + 1.0) * x) * (1.0 + x), 1.0 - k * x);
      Regroup(1.0 - (k + 1.0) * x, 1.0 + x, p);
    }
  }

  lemma Regroup(a: real, b: real, p: real)
    ensures a * (b * p) == (a * b) * p
  {
  }

  /** 1 + 2^-40, a multiplier that the configuration accepts */
  const SLOW := 1.0 + 1.0 / 1099511627776.0

  lemma SlowBound(attempts: nat)
    requires attempts < I31
    ensures Pow(SLOW, attempts) < 2.0
  {
    var x, p := 1.0 / 1099511627776.0, Pow(SLOW, attempts);
    ReverseBernoulli(x, attempts);
    PowAtLeastOne(SLOW, attempts);
    assert attempts as real <= 2147483648.0;
    Times(x, attempts as real, 2147483648.0);
    assert 2147483648.0 * x == 1.0 / 512.0;
    Times(p, 1.0 - 1.0 / 512.0, 1.0 - attempts as real * x);
    assert (1.0 - 1.0 / 512.0) * p <= 1.0;
  }

  /** With the default delays of 1000 and 60000 milliseconds this multiplier never gets to the maximum, at no
      count at all: before the exponent wraps the curve stays below 2000, after it below 1000. */
  lemma SlowNeverReachesMax(attempts: nat)
    requires attempts < U32
    ensures Delay(1000, 60000, SLOW, attempts) < 2000
    ensures !Settles(1000, 60000, SLOW)
  {
    SlowBound(I31 - 1);
    hide Pow, Settles;
    DelayIsEventuallyMaxIff(1000, 60000, SLOW);
    if attempts < I31 {
      SlowBound(attempts);
      SlowDelay(attempts);
    } else {
      DelayFloorIff(1000, 60000, SLOW, attempts);
    }
  }

  lemma SlowDelay(attempts: nat)
    requires attempts < I31 && Pow(SLOW, attempts) < 2.0
    ensures Delay(1000, 60000, SLOW, attempts) < 2000
  {
    assert Scaled(1000, SLOW, attempts) == 1000.0 * Pow(SLOW, attempts);
    assert Scaled(1000, SLOW, attempts) < 2000.0;
    assert Scaled(1000, SLOW, attempts).Floor < 2000;
    hide Pow;
  }

  /** Beyond 2^31 attempts the exponent wraps to a negative one: with a multiplier above one the delay
      stays at or above its initial value exactly below that count. */
  lemma DelayFloorIff(initial: nat, max: nat, multiplier: real, attempts: nat)
    requires multiplier > 1.0 && 1 <= initial <= max < I64 && attempts < U32
    ensures Delay(initial, max, multiplier, attempts) >= initial <==> attempts < I31
  {
    if attempts < I31 {
      DelayCurve(initial, max, multiplier, attempts, attempts);
    } else {
      ScaledNegative(initial, multiplier, U32 - attempts);
      hide Scaled;
      var e := AsI32(attempts);
      assert Scaled(initial, multiplier, e) < initial as real;
      assert Scaled(initial, multiplier, e).Floor < initial;
    }
  }

  lemma ScaledNegative(initial: nat, multiplier: real, k: nat)
    requires multiplier > 1.0 && initial >= 1 && k >= 1
    ensures Scaled(initial, multiplier, -(k as int)) < initial as real
  {
    PowMonotone(multiplier, 1, k);
    assert Pow(multiplier, 1) == multiplier * Pow(multiplier, 0) == multiplier;
    Reciprocal(Pow(multiplier, k));
    StrictTimes(initial as real, 1.0 / Pow(multiplier, k));
    assert Powi(multiplier, -(k as int)) == 1.0 / Pow(multiplier, k);
  }

  lemma Reciprocal(p: real)
    requires p > 1.0
    ensures 0.0 < 1.0 / p < 1.0
  {
  }

  lemma StrictTimes(x: real, a: real)
    requires x > 0.0 && a < 1.0
    ensures x * a < x
  {
  }
}
