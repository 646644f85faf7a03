/**
 The background byte budget: a bucket that refills at an elastic rate and goes negative when a caller overdraws it, the
 debt being returned as a delay. Rates, tokens and time are real numbers; time is given and never goes back.
 */
module Throttle {
  datatype Limits = Limits(max: real, min: real, busy: real) {
    predicate Valid() { 0.0 < min <= max }
  }

  function Least(a: real, b: real): real { if a < b then a else b }
  function Most(a: real, b: real): real { if a < b then b else a }

  /** The next rate after a window with the given foreground rate: halved when busy, a tenth of the ceiling more when quiet. */
  function NextRate(l: Limits, rate: real, foreground: real): (r: real) {
    if foreground > l.busy then Most(rate * 0.5, l.min) else Least(rate + 0.1 * l.max, l.max)
  }

  /** The rate stays between the limits; when busy it falls, by at most half, unless at the floor; when quiet it rises unless at the ceiling. */
  lemma RateKept(l: Limits, rate: real, foreground: real)
    requires l.Valid() && l.min <= rate <= l.max
    ensures l.min <= NextRate(l, rate, foreground) <= l.max
    ensures if foreground > l.busy then rate * 0.5 <= NextRate(l, rate, foreground) <= rate
            else rate <= NextRate(l, rate, foreground)
    ensures foreground > l.busy && rate > l.min ==> NextRate(l, rate, foreground) < rate
    ensures foreground <= l.busy && rate < l.max ==> NextRate(l, rate, foreground) > rate
  {
  }

  /** Under a lasting busy foreground the rate halves window by window down to the floor. */
  lemma {:induction false} BusyYields(l: Limits, rate: real, windows: nat, foreground: real)
    requires l.Valid() && l.min <= rate <= l.max && foreground > l.busy
    ensures Windows(l, rate, windows, foreground) == Most(Halved(rate, windows), l.min) <= l.max
  {
    if windows > 0 { BusyYields(l, rate, windows - 1, foreground); }
  }

  function Halved(rate: real, times: nat): real { if times == 0 then rate else Halved(rate, times - 1) * 0.5 }

  /** Whatever the limits and however low the rate, ten quiet windows bring it back to the ceiling. */
  lemma {:induction false} QuietRecovers(l: Limits, rate: real, windows: nat, foreground: real)
    requires l.Valid() && l.min <= rate <= l.max && foreground <= l.busy
    ensures l.min <= Windows(l, rate, windows, foreground) <= l.max
    ensures Windows(l, rate, windows, foreground) == Least(rate + 0.1 * windows as real * l.max, l.max)
    ensures windows >= 10 ==> Windows(l, rate, windows, foreground) == l.max
  {
    if windows > 0 {
      QuietRecovers(l, rate, windows - 1, foreground);
      Tenths(windows - 1, l.max);
    } else {
      assert 0.1 * 0.0 * l.max == 0.0;
    }
    if windows >= 10 { TenthsReach(windows, l.max); }
  }

  function Windows(l: Limits, rate: real, windows: nat, foreground: real): real {
    if windows == 0 then rate else NextRate(l, Windows(l, rate, windows - 1, foreground), foreground)
  }

  lemma Tenths(n: nat, x: real)
    ensures 0.1 * (n + 1) as real * x == 0.1 * n as real * x + 0.1 * x
  {
    var a := n as real;
    assert (n + 1) as real == a + 1.0;
    assert 0.1 * (a + 1.0) * x == 0.1 * a * x + 0.1 * x;
  }

  lemma TenthsReach(n: nat, x: real)
    requires n >= 10 && x > 0.0
    ensures 0.1 * n as real * x >= x
  {
    var a := 0.1 * n as real;
    assert a >= 1.0;
    assert (a - 1.0) * x >= 0.0;
  }

  /** The bucket after dt seconds at a rate: it holds at most one second's worth. */
  function Refilled(tokens: real, rate: real, dt: real): real { Least(tokens + rate * dt, rate) }

  /** The ceiling's worth of some seconds and one more. */
  function Ceiling(max: real, elapsed: real): real { max * (1.0 + elapsed) }

  /** The bytes charged and the tokens left never exceed the ceiling's worth of one second more than has elapsed. */
  ghost predicate Bounded(max: real, charged: real, tokens: real, elapsed: real) {
    charged + tokens <= Ceiling(max, elapsed)
  }

  lemma RefillKeeps(max: real, rate: real, charged: real, tokens: real, elapsed: real, dt: real)
    requires Bounded(max, charged, tokens, elapsed) && dt >= 0.0 && rate <= max
    ensures Bounded(max, charged, Refilled(tokens, rate, dt), elapsed + dt)
  {
    assert (max - rate) * dt >= 0.0;
    assert max * (1.0 + (elapsed + dt)) == max * (1.0 + elapsed) + max * dt;
  }

  lemma RefillLimit(tokens: real, rate: real, dt: real)
    ensures Refilled(tokens, rate, dt) <= rate
  {
  }

  /** Once the delay for a debt has elapsed the bytes charged fit the ceiling. */
  lemma DelayPays(max: real, rate: real, charged: real, tokens: real, elapsed: real)
    requires Bounded(max, charged, tokens, elapsed) && 0.0 < rate <= max
    ensures charged <= Ceiling(max, elapsed + DelayFor(tokens, rate))
    ensures DelayFor(tokens, rate) >= 0.0
  {
    var d := DelayFor(tokens, rate);
    if tokens < 0.0 {
      Quotient(-tokens, rate);
      assert (max - rate) * d >= 0.0;
    }
    assert Ceiling(max, elapsed + d) == Ceiling(max, elapsed) + max * d;
  }

  lemma Quotient(a: real, b: real)
    requires a >= 0.0 && b > 0.0
    ensures (a / b) * b == a && a / b >= 0.0
  {
    var q := a / b;
    assert q * b == a;
    if q < 0.0 { Negative(q, b); }
  }

  lemma Negative(q: real, b: real)
    requires q < 0.0 && b > 0.0
    ensures q * b < 0.0
  {
  }

  function DelayFor(tokens: real, rate: real): real
    requires rate > 0.0
  {
    if tokens >= 0.0 then 0.0 else -tokens / rate
  }

  class BgThrottle {
    const limits: Limits
    var rate: real
    var tokens: real
    var lastRefill: real
    var lastObs: real
    var lastFgOps: nat
    ghost const start: real
    ghost var charged: real

    ghost predicate Valid()
      reads this
    {
      && limits.Valid() && limits.min <= rate <= limits.max && tokens <= limits.max
      && start <= lastObs <= lastRefill
      && Bounded(limits.max, charged, tokens, lastRefill - start)
    }

    constructor (limits: Limits, now: real, fgOps: nat)
      requires limits.Valid()
      ensures Valid() && this.limits == limits && rate == limits.max == tokens && charged == 0.0
      ensures start == now == lastRefill == lastObs && lastFgOps == fgOps
    {
      this.limits, rate, tokens, lastRefill, lastObs, lastFgOps := limits, limits.max, limits.max, now, now, fgOps;
      start, charged := now, 0.0;
      assert limits.max * (1.0 + (now - now)) == limits.max;
    }

    /** The rate the next call at the given time will use. */
    function RateAt(now: real, fgOps: nat): (r: real)
      requires limits.Valid() && limits.min <= rate <= limits.max
      reads this
      ensures limits.min <= r <= limits.max && 2.0 * r >= rate
    {
      RateStays();
      if now - lastObs >= 1.0 then NextRate(limits, rate, Foreground(now, fgOps)) else rate
    }

    function Foreground(now: real, fgOps: nat): real
      requires now - lastObs >= 1.0
      reads this
    {
      (if fgOps > lastFgOps then fgOps - lastFgOps else 0) as real / (now - lastObs)
    }

    lemma RateStays()
      requires limits.Valid() && limits.min <= rate <= limits.max
      ensures forall foreground :: limits.min <= NextRate(limits, rate, foreground) <= limits.max && 2.0 * NextRate(limits, rate, foreground) >= rate
    {
      forall foreground ensures limits.min <= NextRate(limits, rate, foreground) <= limits.max && 2.0 * NextRate(limits, rate, foreground) >= rate {
        RateKept(limits, rate, foreground);
      }
    }

    /**
     Charge bytes of background work; the result is how long to sleep. In any history of calls, once the sleep has
     passed, everything charged since the start fits the ceiling over the time elapsed plus one second's burst.
     */
    method AcquireDelay(bytes: nat, now: real, fgOps: nat) returns (d: real)
      requires Valid() && now >= lastRefill
      modifies this
      ensures Valid() && charged == old(charged) + bytes as real && lastRefill == now && d >= 0.0
      ensures charged <= Ceiling(limits.max, now - start + d)
      ensures rate == old(RateAt(now, fgOps))
      ensures tokens == Refilled(old(tokens), rate, now - old(lastRefill)) - bytes as real
      ensures d == DelayFor(tokens, rate)
      ensures lastObs == (if now - old(lastObs) >= 1.0 then now else old(lastObs))
      ensures lastFgOps == (if now - old(lastObs) >= 1.0 then fgOps else old(lastFgOps))
    {
      hide Bounded;
      hide Refilled;
      hide Ceiling;
      hide DelayFor;
      RateStays();
      hide NextRate;
      ghost var elapsed := lastRefill - start;
      var win := now - lastObs;
      if win >= 1.0 {
        rate := NextRate(limits, rate, (if fgOps > lastFgOps then fgOps - lastFgOps else 0) as real / win);
        lastObs, lastFgOps := now, fgOps;
      }
      var dt := now - lastRefill;
      lastRefill := now;
      RefillKeeps(limits.max, rate, charged, tokens, elapsed, dt);
      RefillLimit(tokens, rate, dt);
      tokens := Refilled(tokens, rate, dt);
      ChargeKeeps(limits.max, charged, tokens, now - start, bytes as real);
      tokens := tokens - bytes as real;
      charged := charged + bytes as real;
      DelayPays(limits.max, rate, charged, tokens, now - start);
      d := DelayFor(tokens, rate);
    }
  }

  lemma ChargeKeeps(max: real, charged: real, tokens: real, elapsed: real, bytes: real)
    requires Bounded(max, charged, tokens, elapsed)
    ensures Bounded(max, charged + bytes, tokens - bytes, elapsed)
  {
  }

  /** The debt after a charge of at most chunk bytes by a caller that slept off its last delay. */
  lemma DebtHalves(rate: real, next: real, tokens: real, dt: real, bytes: real, chunk: real)
    requires rate > 0.0 && next > 0.0 && 2.0 * next >= rate && dt >= DelayFor(tokens, rate)
    requires tokens >= -2.0 * chunk && 0.0 <= bytes <= chunk
    ensures Refilled(tokens, next, dt) - bytes >= -2.0 * chunk
  {
    var gain := next * dt;
    if tokens < 0.0 {
      Quotient(-tokens, rate);
      HalfPaid(rate, next, -tokens / rate, dt);
      assert 2.0 * gain >= -tokens;
    } else {
      Times(next, dt);
    }
    assert tokens + gain >= -chunk;
  }

  lemma HalfPaid(rate: real, next: real, d: real, dt: real)
    requires rate > 0.0 && next > 0.0 && 2.0 * next >= rate && dt >= d >= 0.0
    ensures 2.0 * (next * dt) >= d * rate
  {
    Times(next, dt - d);
    assert next * dt == next * (dt - d) + next * d;
    Times(2.0 * next - rate, d);
    assert 2.0 * (next * d) == (2.0 * next - rate) * d + d * rate;
  }

  lemma Times(a: real, b: real)
    requires a >= 0.0 && b >= 0.0
    ensures a * b >= 0.0
  {
  }

  /**
   Background work is never starved: a worker that charges at most chunk bytes at a time and sleeps off each delay is
   never told to sleep longer than twice a chunk at the floor rate, however busy the foreground is.
   */
  method PacedCall(b: BgThrottle, bytes: nat, now: real, fgOps: nat, ghost chunk: nat) returns (d: real)
    requires b.Valid() && now >= b.lastRefill && bytes <= chunk
    requires b.tokens >= -2.0 * chunk as real && now - b.lastRefill >= DelayFor(b.tokens, b.rate)
    modifies b
    ensures b.Valid() && b.tokens >= -2.0 * chunk as real && b.lastRefill == now
    ensures d == DelayFor(b.tokens, b.rate) && d <= 2.0 * chunk as real / b.limits.min
  {
    hide Refilled;
    hide Ceiling;
    hide DelayFor;
    hide Bounded;
    ghost var rate, tokens, dt := b.rate, b.tokens, now - b.lastRefill;
    ghost var next := b.RateAt(now, fgOps);
    d := b.AcquireDelay(bytes, now, fgOps);
    DebtHalves(rate, next, tokens, dt, bytes as real, chunk as real);
    DelayAtMost(b.tokens, b.rate, b.limits.min, 2.0 * chunk as real);
  }

  lemma DelayAtMost(tokens: real, rate: real, min: real, debt: real)
    requires 0.0 < min <= rate && tokens >= -debt && debt >= 0.0
    ensures DelayFor(tokens, rate) <= debt / min
  {
    var d, m := DelayFor(tokens, rate), debt / min;
    Quotient(debt, min);
    if tokens < 0.0 {
      Quotient(-tokens, rate);
      if d > m {
        Times(rate - min, d);
        assert d * rate >= d * min;
        assert (d - m) * min > 0.0 by { Positive(d - m, min); }
      }
    }
  }

  lemma Positive(a: real, b: real)
    requires a > 0.0 && b > 0.0
    ensures a * b > 0.0
  {
  }
}
