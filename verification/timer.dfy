/** The tick counter of boot/soc_landshark/timer_ram.c: counting periods with a 32-bit cycle counter that wraps. */
module Timer {
  import opened ByteOrder

  /** Unsigned 32-bit arithmetic. */
  const MODULUS := 0x1_0000_0000
  /** A counter less than this far beyond the compare value has passed it. */
  const AHEAD := 0x7fff_ffff
  /** The longest period the test can tell from a counter that has passed the compare value. */
  const LONGEST := 0x8000_0001

  /** The counter register at a true time in cycles. */
  function Count(t: nat): (r: nat)
    ensures r < MODULUS
  {
    t % MODULUS
  }

  function Diff(count: nat, expire: nat): (r: nat)
    ensures r < MODULUS
  {
    (count - expire) % MODULUS
  }

  /** The tick count and the compare register. */
  datatype Clock = Clock(timestamp: nat, compare: nat)

  /** A count of ticks, the last of them at true time `last`, and the compare register at the next one. */
  function At(ticks: nat, last: nat, period: nat): Clock {
    Clock(Count(ticks), Count(last + period))
  }

  /** How much of the catch-up loop is left. */
  function Behind(c: Clock, count: nat): nat {
    if Diff(count, c.compare) < AHEAD then Diff(count, c.compare) + 1 else 0
  }

  function Tick(c: Clock, period: nat): Clock {
    Clock(Count(c.timestamp + 1), Count(c.compare + period))
  }

  /** For periods up to the longest, every pass of the loop makes progress. */
  lemma TickProgress(c: Clock, count: nat, period: nat)
    requires 1 <= period <= LONGEST && Diff(count, c.compare) < AHEAD
    ensures Behind(Tick(c, period), count) < Behind(c, count)
  {
    var d := Diff(count, c.compare);
    assert (count - c.compare) == d + MODULUS * ((count - c.compare) / MODULUS);
    assert c.compare + period == Count(c.compare + period) + MODULUS * ((c.compare + period) / MODULUS);
    Residue(count - Count(c.compare + period), d - period,
            (count - c.compare) / MODULUS + (c.compare + period) / MODULUS);
    if d < period {
      Residue(d - period, d - period + MODULUS, -1);
    }
  }

  /** The clock after the catch-up loop of get_timer. */
  function Caught(c: Clock, count: nat, period: nat): Clock
    requires 1 <= period <= LONGEST
    decreases Behind(c, count)
  {
    if Diff(count, c.compare) < AHEAD then
      TickProgress(c, count, period);
      Caught(Tick(c, period), count, period)
    else c
  }

  // ------------------------------------------------------------------- laws

  /** What the loop's test says when the counter is at most a period short of the compare value, or less than a wrap beyond. */
  lemma TestMeans(t: nat, next: nat)
    requires -LONGEST <= t - next < MODULUS
    ensures Diff(Count(t), Count(next)) < AHEAD <==> 0 <= t - next < AHEAD
  {
    var d := t - next;
    assert t == Count(t) + MODULUS * (t / MODULUS) && next == Count(next) + MODULUS * (next / MODULUS);
    Residue(Count(t) - Count(next), d, next / MODULUS - t / MODULUS);
    if d < 0 {
      Residue(d, d + MODULUS, -1);
    }
  }

  lemma TickAt(ticks: nat, last: nat, period: nat)
    ensures Tick(At(ticks, last, period), period) == At(ticks + 1, last + period, period)
  {
    assert ticks == Count(ticks) + MODULUS * (ticks / MODULUS);
    Residue(ticks + 1, Count(ticks) + 1, ticks / MODULUS);
    var next := last + period;
    assert next == Count(next) + MODULUS * (next / MODULUS);
    Residue(next + period, Count(next) + period, next / MODULUS);
  }

  /** Periods passed. */
  function Elapsed(from: nat, t: nat, period: nat): nat
    requires from <= t && period > 0
  {
    (t - from) / period
  }

  lemma ElapsedStep(from: nat, t: nat, period: nat)
    requires period > 0 && from <= t
    ensures t < from + period ==> Elapsed(from, t, period) == 0
    ensures t >= from + period ==> Elapsed(from, t, period) == Elapsed(from + period, t, period) + 1
  {
    var n := (t - from) / period;
    var r := (t - from) % period;
    assert t - from == n * period + r;
    if t >= from + period {
      assert n >= 1;
      assert t - from - period == (n - 1) * period + r;
      DivModUnique(t - from - period, period, n - 1, r);
    }
  }

  /** The loop counts n ticks, the last of them at true time `end`, if that is how many are due. */
  lemma {:induction false} CountUp(ticks: nat, last: nat, period: nat, t: nat, n: nat, end: nat)
    requires 1 <= period <= LONGEST && end == last + n * period
    requires last <= end <= t < end + period && t < last + period + AHEAD
    ensures Caught(At(ticks, last, period), Count(t), period) == At(ticks + n, end, period)
    decreases n
  {
    TestMeans(t, last + period);
    if n > 0 {
      Distribute(n - 1, period);
      TickAt(ticks, last, period);
      CountUp(ticks + 1, last + period, period, t, n - 1, end);
    }
  }

  /** The loop counts exactly the periods that have passed and leaves the compare register at the next one. */
  lemma CatchUp(ticks: nat, last: nat, period: nat, t: nat)
    requires 1 <= period <= LONGEST && last <= t < last + period + AHEAD
    ensures Caught(At(ticks, last, period), Count(t), period)
         == At(ticks + Elapsed(last, t, period), last + Elapsed(last, t, period) * period, period)
  {
    Between(last, t, period);
    CountUp(ticks, last, period, t, Elapsed(last, t, period), last + Elapsed(last, t, period) * period);
  }

  lemma Distribute(n: nat, period: nat)
    ensures (n + 1) * period == n * period + period
  {}

  /**
    Short of a wrap of the counter, the count is right exactly when the call
    comes less than AHEAD cycles after the next tick was due.
   */
  lemma RightIff(ticks: nat, last: nat, period: nat, t: nat)
    requires 1 <= period <= 0x8000_0001 && last <= t < last + period + 0xffff_ffff
    ensures Caught(At(ticks, last, period), Count(t), period).timestamp == Count(ticks + Elapsed(last, t, period))
       <==> t < last + period + 0x7fff_ffff
  {
    if t < last + period + AHEAD {
      CatchUp(ticks, last, period, t);
    } else {
      TestMeans(t, last + period);
      ElapsedStep(last, t, period);
      var n := Elapsed(last + period, t, period);
      NotMore(t - last - period, period);
      Distinguished(ticks, n + 1);
    }
  }

  lemma NotMore(a: nat, period: nat)
    requires period >= 1
    ensures a / period <= a
  {}

  lemma Distinguished(ticks: nat, n: nat)
    requires 0 < n < MODULUS
    ensures Count(ticks + n) != Count(ticks)
  {}

  /** No tick is counted before its time, however early the call, exactly if the period is not beyond the longest. */
  lemma LongestPeriod(last: nat, period: nat)
    requires 1 <= period < 0x1_0000_0000
    ensures (forall t :: last <= t < last + period ==> Diff(Count(t), Count(last + period)) >= AHEAD) <==> period <= 0x8000_0001
  {
    if period <= LONGEST {
      forall t | last <= t < last + period
        ensures Diff(Count(t), Count(last + period)) >= AHEAD
      {
        TestMeans(t, last + period);
      }
    } else {
      AtOnce(last, period);
    }
  }

  /** What the test sees at the moment the compare register is set. */
  lemma AtOnce(t: nat, period: nat)
    requires 1 <= period < MODULUS
    ensures Diff(Count(t), Count(t + period)) == MODULUS - period
  {
    var next := t + period;
    assert t == Count(t) + MODULUS * (t / MODULUS) && next == Count(next) + MODULUS * (next / MODULUS);
    var d: int := t - next;
    Residue(Count(t) - Count(next), d, next / MODULUS - t / MODULUS);
    Residue(d, d + MODULUS, -1);
  }

  /** The clock that counts from b since time t0, as a call at time t leaves it. */
  function Ticking(b: nat, t0: nat, t: nat, period: nat): Clock
    requires period >= 1 && t0 <= t
  {
    At(b + Elapsed(t0, t, period), t0 + Elapsed(t0, t, period) * period, period)
  }

  /** One call, less than a half wrap after the one before. */
  lemma CallCounts(b: nat, t0: nat, prev: nat, t: nat, period: nat)
    requires 1 <= period <= 0x8000_0001 && t0 <= prev <= t <= prev + 0x7fff_ffff
    ensures Caught(Ticking(b, t0, prev, period), Count(t), period) == Ticking(b, t0, t, period)
  {
    var k := Elapsed(t0, prev, period);
    var last := t0 + k * period;
    Between(t0, prev, period);
    CatchUp(b + k, last, period, t);
    var n := Elapsed(last, t, period);
    ElapsedAdds(t0, t, period, k);
  }

  /** The last tick is at most t, and the next one after it. */
  lemma Between(from: nat, t: nat, period: nat)
    requires period > 0 && from <= t
    ensures from + Elapsed(from, t, period) * period <= t < from + Elapsed(from, t, period) * period + period
  {
    var n := (t - from) / period;
    var r := (t - from) % period;
    assert t - from == n * period + r;
  }

  lemma ElapsedAdds(from: nat, t: nat, period: nat, k: nat)
    requires period > 0 && from + k * period <= t
    ensures Elapsed(from, t, period) == k + Elapsed(from + k * period, t, period)
    ensures Elapsed(from, t, period) * period == k * period + Elapsed(from + k * period, t, period) * period
  {
    var rest := t - from - k * period;
    var n := rest / period;
    var r := rest % period;
    assert rest == n * period + r;
    assert t - from == (k + n) * period + r;
    DivModUnique(t - from, period, k + n, r);
  }

  /** The clock after calls at these times. */
  function Run(c: Clock, times: seq<nat>, period: nat): Clock
    requires 1 <= period <= LONGEST
  {
    if times == [] then c else Caught(Run(c, times[..|times| - 1], period), Count(times[|times| - 1]), period)
  }

  /** Calls that come in order, each less than a half wrap of the counter after the one before. */
  ghost predicate Close(t0: nat, times: seq<nat>) {
    && (times != [] ==> t0 <= times[0] <= t0 + 0x7fff_ffff)
    && forall i :: 0 <= i < |times| - 1 ==> times[i] <= times[i + 1] <= times[i] + 0x7fff_ffff
  }

  function LastTime(t0: nat, times: seq<nat>): nat {
    if times == [] then t0 else times[|times| - 1]
  }

  /** Over any run of calls, across any number of counter wraps, no tick is lost or counted twice. */
  lemma {:induction false} RunCounts(b: nat, t0: nat, times: seq<nat>, period: nat)
    requires 1 <= period <= 0x8000_0001 && Close(t0, times)
    ensures t0 <= LastTime(t0, times)
    ensures Run(At(b, t0, period), times, period).timestamp == (b + Elapsed(t0, LastTime(t0, times), period)) % 0x1_0000_0000
    ensures Run(At(b, t0, period), times, period) == Ticking(b, t0, LastTime(t0, times), period)
    decreases |times|
  {
    if times == [] {
      ElapsedStep(t0, t0, period);
    } else {
      var before := times[..|times| - 1];
      RunCounts(b, t0, before, period);
      CallCounts(b, t0, LastTime(t0, before), LastTime(t0, times), period);
    }
  }

  lemma Since(ticks: nat, base: nat)
    ensures (Count(ticks) - base) % MODULUS == (ticks - base) % MODULUS
  {
    assert ticks == Count(ticks) + MODULUS * (ticks / MODULUS);
    Residue(ticks - base, Count(ticks) - base, ticks / MODULUS);
  }

  // ------------------------------------------------------------- the program

  class TickTimer {
    const period: nat
    var timestamp: nat
    var compare: nat

    ghost predicate Is(c: Clock)
      reads this
    {
      c == Clock(timestamp, compare)
    }

    constructor (period: nat)
      ensures this.period == period
    {
      this.period := period;
      timestamp, compare := 0, 0;
    }

    /** timer_init and reset_timer; `now` is the true time at which the counter is read. */
    method TimerInit(now: nat)
      modifies this
      ensures Is(At(0, now, period)) && (period >= 1 ==> Is(Ticking(0, now, now, period)))
      ensures timestamp == 0 && compare == (now + period) % 0x1_0000_0000
    {
      SetTimer(0, now);
    }

    /** set_timer */
    method SetTimer(t: nat, now: nat)
      requires t < 0x1_0000_0000
      modifies this
      ensures Is(At(t, now, period)) && (period >= 1 ==> Is(Ticking(t, now, now, period)))
      ensures timestamp == t && compare == (now + period) % 0x1_0000_0000
    {
      timestamp := t;
      compare := (Count(now) + period) % MODULUS;
      assert now == Count(now) + MODULUS * (now / MODULUS);
      Residue(now + period, Count(now) + period, now / MODULUS);
      if period >= 1 {
        ElapsedStep(now, now, period);
      }
    }

    /** get_timer: catch up with the counter, then the ticks since `base`. */
    method GetTimer(base: nat, now: nat, ghost b: nat, ghost t0: nat, ghost prev: nat) returns (r: nat)
      requires 1 <= period <= 0x8000_0001 && t0 <= prev <= now
      modifies this
      ensures Is(Caught(old(Clock(timestamp, compare)), Count(now), period))
      ensures r == (timestamp - base) % 0x1_0000_0000
      ensures now <= prev + 0x7fff_ffff && old(Is(Ticking(b, t0, prev, period))) ==>
                Is(Ticking(b, t0, now, period)) && r == (b + (now - t0) / period - base) % 0x1_0000_0000
    {
      var count := Count(now);
      var expire: nat := compare;
      ghost var all := Caught(Clock(timestamp, compare), count, period);
      while Diff(count, expire) < AHEAD
        invariant Caught(Clock(timestamp, expire), count, period) == all
        decreases Behind(Clock(timestamp, expire), count)
      {
        TickProgress(Clock(timestamp, expire), count, period);
        expire := (expire + period) % MODULUS;
        timestamp := (timestamp + 1) % MODULUS;
      }
      compare := expire;
      r := (timestamp - base) % MODULUS;
      if now <= prev + AHEAD && old(Is(Ticking(b, t0, prev, period))) {
        CallCounts(b, t0, prev, now, period);
        Since(b + Elapsed(t0, now, period), base);
      }
    }
  }
}
