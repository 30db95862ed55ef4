/** MicroPython's wrapping millisecond tick counter and its wrap-safe difference.

    `ticks_ms()` returns a value in [0, period) that wraps around at a power of two;
    `ticks_diff(a, b)` maps the difference a - b back into [-period/2, period/2).
    The period is a parameter here; TICKS_PERIOD is its value on the 32-bit port. */
module Ticks {

  /** Wrap period of ticks_ms() on the 32-bit MicroPython port (2^30). */
  const TICKS_PERIOD: nat := 0x4000_0000

  /** A period the difference formula is meant for: positive and even
      (every power of two from 2 up qualifies). */
  predicate ValidPeriod(period: nat) {
    period >= 2 && period % 2 == 0
  }

  /** A value ticks_ms() can return. */
  predicate IsTick(t: int, period: nat) {
    0 <= t < period
  }

  /** ticks_diff(now, before): ((now - before + period/2) & (period - 1)) - period/2.
      For a power-of-two period the mask is the non-negative remainder, written `%` here.
      The result is the representative of now - before (mod period) in [-period/2, period/2). */
  function TicksDiff(now: int, before: int, period: nat): (d: int)
    requires ValidPeriod(period)
    ensures -(period / 2) <= d < period / 2
    ensures (now - before - d) % period == 0
  {
    var x := now - before + period / 2;
    DivMod(x, period);
    x % period - period / 2
  }

  /** x minus its remainder is a multiple of m. */
  lemma DivMod(x: int, m: nat)
    requires m > 0
    ensures (x - x % m) % m == 0
  {
    assert x - x % m == m * (x / m);
    MultipleMod(x / m, m);
  }

  lemma MultipleMod(q: int, m: nat)
    requires m > 0
    ensures (m * q) % m == 0
  {
    ModUnique(m * q, m, q, 0);
  }

  /** The remainder is determined by any quotient/remainder decomposition. */
  lemma ModUnique(a: int, m: nat, q: int, r: int)
    requires m > 0 && 0 <= r < m && a == m * q + r
    ensures a % m == r && a / m == q
  {
    var q', r' := a / m, a % m;
    assert m * q' + r' == m * q + r;
    if q' < q {
      assert m * (q - q') == r' - r;
      MulAtLeast(m, q - q');
    } else if q' > q {
      assert m * (q' - q) == r - r';
      MulAtLeast(m, q' - q);
    }
  }

  lemma MulAtLeast(m: nat, k: int)
    requires k >= 1
    ensures m * k >= m
  {
    assert m * k == m + m * (k - 1);
  }

  /** Full characterisation on two tick values: the difference is exact when
      |now - before| < period/2 and corrected by one period otherwise. */
  lemma TicksDiffOfTicks(now: int, before: int, period: nat)
    requires ValidPeriod(period) && IsTick(now, period) && IsTick(before, period)
    ensures TicksDiff(now, before, period) ==
      if now - before < -(period / 2) then now - before + period
      else if now - before < period / 2 then now - before
      else now - before - period
  {
    var h := period / 2;
    var x := now - before + h;
    if now - before < -h {
      ModUnique(x, period, -1, x + period);
    } else if now - before < h {
      ModUnique(x, period, 0, x);
    } else {
      ModUnique(x, period, 1, x - period);
    }
  }

  /** The difference only depends on the elapsed ticks modulo the period:
      it is e when e = (now - before) mod period is below period/2, and e - period otherwise. */
  lemma TicksDiffOfElapsed(now: int, before: int, period: nat)
    requires ValidPeriod(period)
    ensures var e := (now - before) % period;
      TicksDiff(now, before, period) == if e < period / 2 then e else e - period
  {
    var h := period / 2;
    var a := now - before;
    var e := a % period;
    var q := a / period;
    assert a == period * q + e;
    if e < h {
      ModUnique(a + h, period, q, e + h);
    } else {
      assert a + h == period * (q + 1) + (e + h - period);
      ModUnique(a + h, period, q + 1, e + h - period);
    }
  }
}
