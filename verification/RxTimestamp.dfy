/** Reconstruction of the reception time of a frame (dev/minic.c, lib/net.c).

    The hardware latches a rising-edge tick counter (28 bits, restarting each second) and the low
    4 bits of a falling-edge counter; the software adds the second read from the PPS generator and
    the phase measured by the DDMTD.  Time is counted here in picoseconds from the epoch, and ticks
    of the reference clock from the epoch as well. */
module RxTimestamp {
  import opened Arith

  const PS_PER_S: int := 1_000_000_000_000
  const NS_PER_S: int := 1_000_000_000

  /** Period in picoseconds (a multiple of 4000), whole nanoseconds in it, and frequency. */
  datatype Clock = Clock(period: int, nanos: int, freq: int) {
    /** Half and quarter periods are whole picoseconds, and the period whole nanoseconds. */
    predicate Divisible() {
      0 < nanos && period == 1000 * nanos && nanos % 4 == 0
    }

    predicate Valid() {
      && Divisible()
      && 0 < freq < 0x1000_0000 && freq % 16 == 0 && freq * nanos == NS_PER_S
    }
  }

  // ---------------------------------------------------------------------------------------------
  // The hardware
  // ---------------------------------------------------------------------------------------------

  /** The counters latched for an arrival in tick `tick` at `frac` into it.  The rising counter may
      be read on the wrong side of its edge within a quarter period of it, and so may the falling
      counter, whose edge is half a period later. */
  predicate Latched(k: Clock, tick: int, frac: int, rising: int, falling: int) {
    && 0 <= frac < k.period
    && (if frac < k.period / 4 then rising == tick || rising == tick - 1
        else if frac > 3 * k.period / 4 then rising == tick || rising == tick + 1
        else rising == tick)
    && (if frac < k.period / 4 then falling == tick - 1
        else if frac > 3 * k.period / 4 then falling == tick
        else falling == tick || falling == tick - 1)
  }

  /** The phase the DDMTD reports for this position in the period. */
  function Phase(k: Clock, frac: int, transition: int): int
    requires 0 < k.period
  {
    (frac + transition) % k.period
  }

  // ---------------------------------------------------------------------------------------------
  // dev/minic.c
  // ---------------------------------------------------------------------------------------------

  datatype HwTimestamp = HwTimestamp(sec: int, nsec: int, ahead: bool)

  /** The timestamp built from the raw counters, and from second and nanosecond at read-out. */
  function BuildTimestamp(k: Clock, counterR: int, counterF: int, sec: int, ppsNsec: int): HwTimestamp {
    var diff := counterR % 16 - counterF;
    HwTimestamp(
      if counterR > 3 * k.freq / 4 && ppsNsec < 250_000_000 then sec - 1 else sec,
      counterR * k.nanos,
      diff == 1 || diff == -15)
  }

  // ---------------------------------------------------------------------------------------------
  // lib/net.c
  // ---------------------------------------------------------------------------------------------

  datatype Linear = Linear(sec: int, nsec: int, phase: int)

  /** Picoseconds from the epoch. */
  function Total(t: Linear): int {
    t.sec * PS_PER_S + t.nsec * 1000 + t.phase
  }

  /** The measured phase relative to the edges of the rising and of the falling counter. */
  function RisingPhase(k: Clock, rawPhase: int, transition: int): int {
    var r := rawPhase - transition;
    if r < 0 then r + k.period else r
  }

  function FallingPhase(k: Clock, rawPhase: int, transition: int): int {
    var f0 := rawPhase - transition + k.period / 2;
    var f1 := if f0 < 0 then f0 + k.period else f0;
    if f1 >= k.period then f1 - k.period else f1
  }

  /** Merges coarse counters and phase. */
  function Linearize(k: Clock, hw: HwTimestamp, rawPhase: int, transition: int): Linear {
    var nsecF := if hw.ahead then hw.nsec - k.nanos else hw.nsec;
    var phaseR, phaseF := RisingPhase(k, rawPhase, transition), FallingPhase(k, rawPhase, transition);
    var picked :=
      if phaseR > 3 * k.period / 4 || phaseR < k.period / 4 then
        if phaseF + k.period / 2 >= k.period
        then Linear(hw.sec, nsecF + k.nanos, phaseF + k.period / 2 - k.period)
        else Linear(hw.sec, nsecF, phaseF + k.period / 2)
      else Linear(hw.sec, hw.nsec, phaseR);
    if picked.nsec >= NS_PER_S then Linear(picked.sec + 1, picked.nsec - NS_PER_S, picked.phase) else picked
  }

  /** The timestamp record, linearized in place. */
  class Timestamp {
    var sec: int
    var nsec: int
    var phase: int
    var rawPhase: int

    method LinearizeRx(dmtdPhase: int, ahead: bool, transition: int, k: Clock)
      requires k.Valid()
      modifies this
      ensures rawPhase == dmtdPhase
      ensures Linear(sec, nsec, phase)
           == Linearize(k, HwTimestamp(old(sec), old(nsec), ahead), dmtdPhase, transition)
    {
      rawPhase := dmtdPhase;
      var nsecR := nsec;
      var nsecF := if ahead then nsec - k.period / 1000 else nsec;
      var phaseR := rawPhase - transition;
      if phaseR < 0 {
        phaseR := phaseR + k.period;
      }
      var phaseF := rawPhase - transition + k.period / 2;
      if phaseF < 0 {
        phaseF := phaseF + k.period;
      }
      if phaseF >= k.period {
        phaseF := phaseF - k.period;
      }
      if phaseR > 3 * k.period / 4 || phaseR < k.period / 4 {
        nsec := nsecF;
        phase := phaseF + k.period / 2;
        if phase >= k.period {
          phase := phase - k.period;
          nsec := nsec + k.period / 1000;
        }
      } else {
        nsec := nsecR;
        phase := phaseR;
      }
      if nsec >= NS_PER_S {
        nsec := nsec - NS_PER_S;
        sec := sec + 1;
      }
    }
  }

  // ---------------------------------------------------------------------------------------------
  // Exactness
  // ---------------------------------------------------------------------------------------------

  /** The latched flag tells whether the rising counter is one tick ahead of the falling one, even
      across the restart of the counters. */
  lemma AheadIsDifference(k: Clock, rising: int, falling: int, sec: int, ppsNsec: int)
    requires k.Valid() && (rising == falling || rising == falling + 1)
    ensures BuildTimestamp(k, rising % k.freq, falling % 16, sec, ppsNsec).ahead <==> rising == falling + 1
  {
    Mod16(k, rising);
    Difference16(rising, falling);
  }

  lemma Difference16(a: int, b: int)
    requires a == b || a == b + 1
    ensures a % 16 - b % 16 == 1 || a % 16 - b % 16 == -15 <==> a == b + 1
  {
  }

  lemma Mod16(k: Clock, x: int)
    requires k.Valid()
    ensures (x % k.freq) % 16 == x % 16
  {
    var q, m := x / k.freq, k.freq / 16;
    assert x == q * k.freq + x % k.freq;
    assert k.freq == 16 * m;
    Regroup(q, m);
    ModMultiple(x % k.freq, q * m);
  }

  lemma Regroup(q: int, m: int)
    ensures q * (16 * m) == 16 * (q * m)
  {
  }

  lemma ModMultiple(a: int, b: int)
    ensures (a + 16 * b) % 16 == a % 16
  {
  }

  /** The phase, brought back to the period, is the position in the tick. */
  lemma PhaseIsFraction(k: Clock, frac: int, transition: int)
    requires k.Divisible() && 0 <= frac < k.period && 0 <= transition < k.period
    ensures Phase(k, frac, transition) == if frac + transition < k.period then frac + transition
                                          else frac + transition - k.period
  {
    var x := frac + transition;
    if x >= k.period {
      ModStep(x - k.period, k.period);
    } else {
      ModSmall(x, k.period);
    }
  }

  lemma ModSmall(x: int, p: int)
    requires 0 <= x < p
    ensures x % p == x
  {
  }

  lemma ModStep(x: int, p: int)
    requires 0 <= x < p
    ensures (x + p) % p == x
  {
    assert x + p == 1 * p + x;
  }

  /** Whatever counters were latched, the linearized time is the arrival time, shifted by the whole
      seconds by which the second attached to the rising counter is off. */
  lemma LinearizeShift(k: Clock, tick: int, frac: int, transition: int, rising: int, falling: int,
                       second: int, hw: HwTimestamp, t: Linear)
    requires k.Valid() && Latched(k, tick, frac, rising, falling) && 0 <= transition < k.period
    requires hw == HwTimestamp(second, (rising % k.freq) * k.nanos, rising == falling + 1)
    requires t == Linearize(k, hw, Phase(k, frac, transition), transition)
    ensures t.phase == frac
    ensures Total(t) == tick * k.period + frac + (second - rising / k.freq) * PS_PER_S
    ensures hw.nsec >= k.nanos ==> 0 <= t.nsec < NS_PER_S
    ensures -k.nanos <= t.nsec < NS_PER_S
  {
    RisingNanos(k, rising);
    LinearizeTick(k, tick, frac, transition, rising, falling, hw, t);
    TickNanos(k.nanos, tick, rising);
    Assemble(tick * k.nanos, rising * k.nanos, rising / k.freq, hw, t);
    Scale(tick, k.nanos);
  }

  lemma Assemble(tickNanos: int, risingNanos: int, q: int, hw: HwTimestamp, t: Linear)
    requires hw.nsec == risingNanos - q * NS_PER_S
    requires t.sec * NS_PER_S + t.nsec == hw.sec * NS_PER_S + hw.nsec + (tickNanos - risingNanos)
    ensures Total(t) == 1000 * tickNanos + t.phase + (hw.sec - q) * PS_PER_S
  {
  }

  lemma Scale(tick: int, nanos: int)
    ensures tick * (1000 * nanos) == 1000 * (tick * nanos)
  {
  }

  /** The position in the tick is exact, and the counter is corrected to the tick of arrival. */
  lemma LinearizeTick(k: Clock, tick: int, frac: int, transition: int, rising: int, falling: int,
                      hw: HwTimestamp, t: Linear)
    requires k.Divisible() && Latched(k, tick, frac, rising, falling) && 0 <= transition < k.period
    requires hw.ahead == (rising == falling + 1) && 0 <= hw.nsec <= NS_PER_S - k.nanos
    requires t == Linearize(k, hw, Phase(k, frac, transition), transition)
    ensures t.phase == frac
    ensures t.sec * NS_PER_S + t.nsec
         == hw.sec * NS_PER_S + hw.nsec + if rising == tick then 0 else if rising < tick then k.nanos else -k.nanos
    ensures hw.nsec >= k.nanos ==> 0 <= t.nsec
    ensures -k.nanos <= t.nsec < NS_PER_S
  {
    PhasesAreFraction(k, frac, transition);
  }

  lemma PhasesAreFraction(k: Clock, frac: int, transition: int)
    requires k.Divisible() && 0 <= frac < k.period && 0 <= transition < k.period
    ensures var raw := Phase(k, frac, transition);
            && RisingPhase(k, raw, transition) == frac
            && FallingPhase(k, raw, transition) == if frac < k.period / 2 then frac + k.period / 2 else frac - k.period / 2
  {
    PhaseIsFraction(k, frac, transition);
  }

  lemma TickNanos(nanos: int, tick: int, rising: int)
    requires -1 <= tick - rising <= 1
    ensures tick * nanos - rising * nanos
         == if rising == tick then 0 else if rising < tick then nanos else -nanos
  {
    assert (tick - rising) * nanos == tick * nanos - rising * nanos;
  }

  /** The nanosecond of a tick within its second. */
  lemma RisingNanos(k: Clock, rising: int)
    requires k.Valid()
    ensures (rising % k.freq) * k.nanos == rising * k.nanos - (rising / k.freq) * NS_PER_S
    ensures 0 <= (rising % k.freq) * k.nanos <= NS_PER_S - k.nanos
  {
    var q, r := rising / k.freq, rising % k.freq;
    assert rising == q * k.freq + r;
    assert rising * k.nanos == q * (k.freq * k.nanos) + r * k.nanos;
    assert r * k.nanos <= (k.freq - 1) * k.nanos;
  }

  /** Read-out at tick `now` attaches the right second: it falls in the second of the latched tick,
      or in the first quarter of the next one after a tick in the last quarter. */
  predicate InTime(k: Clock, rising: int, now: int)
    requires k.Valid()
  {
    || now / k.freq == rising / k.freq
    || (now / k.freq == rising / k.freq + 1 && rising % k.freq > 3 * k.freq / 4 && now % k.freq < k.freq / 4)
  }

  /** The time computed for a frame: latched counters, read-out at tick `now`, measured phase. */
  function Received(k: Clock, frac: int, transition: int, rising: int, falling: int, now: int): Linear
    requires k.Valid()
  {
    var hw := BuildTimestamp(k, rising % k.freq, falling % 16, now / k.freq, (now % k.freq) * k.nanos);
    Linearize(k, hw, Phase(k, frac, transition), transition)
  }

  /** For every arrival and all counters the hardware may have latched, second, nanosecond and phase
      denote the arrival instant exactly if and only if the read-out came in time. */
  lemma ReceivedExactIff(k: Clock, tick: int, frac: int, transition: int, rising: int, falling: int, now: int)
    requires k.Valid() && Latched(k, tick, frac, rising, falling) && 0 <= transition < k.period
    requires rising <= now
    ensures var t := Received(k, frac, transition, rising, falling, now);
            && (Total(t) == tick * k.period + frac <==> InTime(k, rising, now))
            && t.phase == frac && -k.nanos <= t.nsec < NS_PER_S
            && ((rising % k.freq) * k.nanos >= k.nanos ==> 0 <= t.nsec)
  {
    var hw := BuildTimestamp(k, rising % k.freq, falling % 16, now / k.freq, (now % k.freq) * k.nanos);
    AheadIsDifference(k, rising, falling, now / k.freq, (now % k.freq) * k.nanos);
    LinearizeShift(k, tick, frac, transition, rising, falling, hw.sec, hw,
                   Received(k, frac, transition, rising, falling, now));
    SecondIsRightIff(k, rising, falling, now);
  }

  lemma SecondIsRightIff(k: Clock, rising: int, falling: int, now: int)
    requires k.Valid() && rising <= now
    ensures var hw := BuildTimestamp(k, rising % k.freq, falling % 16, now / k.freq, (now % k.freq) * k.nanos);
            hw.sec == rising / k.freq <==> InTime(k, rising, now)
  {
    FirstQuarter(k, now % k.freq);
    DivMonotone(rising, now, k.freq);
  }

  lemma FirstQuarter(k: Clock, c: int)
    requires k.Valid()
    ensures c * k.nanos < 250_000_000 <==> c < k.freq / 4
  {
    QuarterNanos(k.freq / 4, k.freq, k.nanos);
    ProductOrder(c, k.freq / 4, k.nanos);
  }

  lemma ProductOrder(a: int, b: int, n: int)
    requires 0 < n
    ensures a * n < b * n <==> a < b
  {
    if a < b { MulMonotone(a + 1, b, n); } else { MulMonotone(b, a, n); }
    NextMultiple(a, n);
  }

  lemma NextMultiple(c: int, n: int)
    ensures (c + 1) * n == c * n + n
  {
  }

  lemma QuarterNanos(q: int, freq: int, nanos: int)
    requires freq == 4 * q && freq * nanos == NS_PER_S
    ensures q * nanos == 250_000_000
  {
    Regroup4(q, nanos);
  }

  lemma Regroup4(q: int, n: int)
    ensures (4 * q) * n == 4 * (q * n)
  {
  }

  lemma DivMonotone(a: int, b: int, f: int)
    requires 0 < f && a <= b
    ensures a / f <= b / f
    ensures a / f == b / f ==> a % f <= b % f
  {
    var p, q := a / f, b / f;
    assert a == p * f + a % f && b == q * f + b % f;
    assert q < p ==> (q + 1) * f <= p * f;
  }

  /** Read-out less than 250 ms after the latched tick is in time. */
  lemma QuarterSecondIsInTime(k: Clock, rising: int, now: int)
    requires k.Valid() && rising <= now < rising + k.freq / 4
    ensures InTime(k, rising, now)
  {
    var f, q, r := k.freq, rising / k.freq, rising % k.freq;
    DivMod(rising, f);
    var r' := r + (now - rising);
    NextMultiple(q, f);
    if r' < f {
      DivModUnique(now, f, q, r');
    } else {
      DivModUnique(now, f, q + 1, r' - f);
    }
  }

  /** Measured from the arrival instead, 250 ms are too many: a frame that arrives half a period
      after three quarters of a second, read out 1 ps short of 250 ms later, is off by a second. */
  lemma QuarterSecondFromArrivalIsLate()
    ensures var k := Clock(16000, 16, 62_500_000);
            var tick, frac := 46_875_000, 8000;
            var now := (tick * k.period + frac + PS_PER_S / 4 - 1) / k.period;
            && k.Valid() && Latched(k, tick, frac, tick, tick)
            && Total(Received(k, frac, 0, tick, tick, now)) != tick * k.period + frac
  {
    var k := Clock(16000, 16, 62_500_000);
    var tick, frac := 46_875_000, 8000;
    ReceivedExactIff(k, tick, frac, 0, tick, tick, 62_500_000);
  }

  /** The statement for an arrival instant `u` in picoseconds. */
  lemma ArrivalIsExact(k: Clock, u: int, transition: int, rising: int, falling: int, now: int)
    requires k.Valid() && 0 <= u && 0 <= transition < k.period
    requires Latched(k, u / k.period, u % k.period, rising, falling)
    requires rising <= now < rising + k.freq / 4
    ensures var t := Received(k, u % k.period, transition, rising, falling, now);
            Total(t) == u && 0 <= t.phase < k.period && -k.nanos <= t.nsec < NS_PER_S
  {
    QuarterSecondIsInTime(k, rising, now);
    ReceivedExactIff(k, u / k.period, u % k.period, transition, rising, falling, now);
    DivideBack(u, k.period);
  }

  lemma DivideBack(u: int, p: int)
    requires 0 < p
    ensures (u / p) * p + u % p == u
  {
  }
}
