/** Calibration of the phase at which the reception counters change (dev/rxts_calibrator.c).

    The phase shifter is scanned in steps over one period and some headroom.  At each step the
    hardware tells whether the rising counter is ahead; two deglitching detectors look for the
    positive and the negative transition of that bit. */
module RxCalibrator {
  import opened Arith

  const STEP: int := 100
  const DEGLITCH: int := 5

  datatype DetState = WaitInactive | GotTransition | Done

  datatype Detector = Detector(state: DetState, count: nat, phase: int)

  const INITIAL: Detector := Detector(WaitInactive, 0, 0)

  /** One sample seen by a detector; `active` means that the bit has the wanted polarity. */
  function Lookup(d: Detector, active: bool, phase: int): Detector {
    match d.state
    case WaitInactive =>
      var c := if active then 0 else d.count + 1;
      if c >= DEGLITCH then Detector(GotTransition, 0, d.phase) else Detector(WaitInactive, c, d.phase)
    case GotTransition =>
      if !active then d.(count := 0)
      else if d.count + 1 >= DEGLITCH then Detector(Done, d.count + 1, phase - DEGLITCH * STEP)
      else d.(count := d.count + 1)
    case Done => d
  }

  /** The clock period: whole scan steps, an even number of them in each half period. */
  predicate GoodPeriod(period: int) {
    period > 0 && period % 4000 == 0
  }

  function ScanRange(period: int): int {
    period + 3 * DEGLITCH * STEP
  }

  // ---------------------------------------------------------------------------------------------
  // Any samples at all
  // ---------------------------------------------------------------------------------------------

  /** A detector after the first `n` samples, taken every step. */
  function Watched(bits: seq<bool>, n: nat): Detector
    requires n <= |bits|
  {
    if n == 0 then INITIAL else Lookup(Watched(bits, n - 1), bits[n-1], (n - 1) * STEP)
  }

  /** Five samples in a row up to `m`, not before `lo`, are `v`. */
  predicate Row(bits: seq<bool>, v: bool, lo: nat, m: nat)
    requires m <= |bits|
  {
    lo + 5 <= m && forall i :: m - 5 <= i < m ==> bits[i] == v
  }

  ghost predicate NoRow(bits: seq<bool>, v: bool, lo: nat, n: nat)
    requires n <= |bits|
  {
    forall m {:trigger Row(bits, v, lo, m)} :: lo <= m <= n ==> !Row(bits, v, lo, m)
  }

  ghost predicate FirstRow(bits: seq<bool>, v: bool, lo: nat, m: nat)
    requires 0 < m <= |bits|
  {
    Row(bits, v, lo, m) && NoRow(bits, v, lo, m - 1)
  }

  /** How many of the samples up to `n`, not before `lo`, are `v` without a break. */
  function Trail(bits: seq<bool>, v: bool, lo: nat, n: nat): nat
    requires lo <= n <= |bits|
  {
    if n == lo || bits[n-1] != v then 0 else 1 + Trail(bits, v, lo, n - 1)
  }

  lemma {:induction false} TrailIff(bits: seq<bool>, v: bool, lo: nat, n: nat, k: nat)
    requires lo <= n <= |bits|
    ensures Trail(bits, v, lo, n) >= k <==> lo + k <= n && forall i :: n - k <= i < n ==> bits[i] == v
  {
    if n > lo && k > 0 {
      TrailIff(bits, v, lo, n - 1, k - 1);
    }
  }

  /** What a detector knows of the samples. */
  ghost predicate Knows(bits: seq<bool>, n: nat, d: Detector)
    requires n <= |bits|
  {
    match d.state
    case WaitInactive => NoRow(bits, false, 0, n) && d.count == Trail(bits, false, 0, n)
    case GotTransition =>
      exists q {:trigger FirstRow(bits, false, 0, q)} :: 0 < q <= n && FirstRow(bits, false, 0, q)
        && NoRow(bits, true, q, n) && d.count == Trail(bits, true, q, n)
    case Done => Finds(bits, n, d.phase)
  }

  /** The first five active samples in a row, behind the first five inactive ones, end before `t`: the
      phase is that of the sample before them. */
  ghost predicate Finds(bits: seq<bool>, n: nat, phase: int)
    requires n <= |bits|
  {
    exists q, t {:trigger FirstRow(bits, false, 0, q), FirstRow(bits, true, q, t)} ::
      0 < q < t <= n && FirstRow(bits, false, 0, q) && FirstRow(bits, true, q, t) && phase == (t - 6) * 100
  }

  lemma RowAppears(bits: seq<bool>, v: bool, lo: nat, n: nat)
    requires lo < n <= |bits| && NoRow(bits, v, lo, n - 1)
    ensures if Trail(bits, v, lo, n) >= 5 then FirstRow(bits, v, lo, n) else NoRow(bits, v, lo, n)
  {
    TrailIff(bits, v, lo, n, 5);
  }

  lemma KnowsMore(bits: seq<bool>, n: nat, d: Detector)
    requires n < |bits| && Knows(bits, n, d)
    ensures Knows(bits, n + 1, Lookup(d, bits[n], n * STEP))
  {
    match d.state {
      case WaitInactive =>
        RowAppears(bits, false, 0, n + 1);
        if Trail(bits, false, 0, n + 1) >= 5 {
          assert NoRow(bits, true, n + 1, n + 1) && Trail(bits, true, n + 1, n + 1) == 0;
        }
      case GotTransition =>
        var q :| 0 < q <= n && FirstRow(bits, false, 0, q) && NoRow(bits, true, q, n) && d.count == Trail(bits, true, q, n);
        RowAppears(bits, true, q, n + 1);
      case Done =>
        var q, t :| 0 < q < t <= n && FirstRow(bits, false, 0, q) && FirstRow(bits, true, q, t) && d.phase == (t - 6) * 100;
    }
  }

  /** Glitches do not count: whatever the samples, the detector waits for five inactive ones in a row, then
      for five active ones in a row, and is done with the first such; it tells the step before them. */
  lemma {:induction false} Deglitches(bits: seq<bool>, n: nat)
    requires n <= |bits|
    ensures Knows(bits, n, Watched(bits, n))
  {
    if n > 0 {
      Deglitches(bits, n - 1);
      KnowsMore(bits, n - 1, Watched(bits, n - 1));
    } else {
      assert NoRow(bits, false, 0, 0);
    }
  }

  lemma DoneIff(bits: seq<bool>, n: nat)
    requires n <= |bits|
    ensures Watched(bits, n).state == Done <==> exists q, t {:trigger Row(bits, false, 0, q), Row(bits, true, q, t)} ::
              0 <= q <= t <= n && Row(bits, false, 0, q) && Row(bits, true, q, t)
  {
    Deglitches(bits, n);
    var d := Watched(bits, n);
    if q, t :| 0 <= q <= t <= n && Row(bits, false, 0, q) && Row(bits, true, q, t) {
      if d.state == GotTransition {
        var p :| 0 < p <= n && FirstRow(bits, false, 0, p) && NoRow(bits, true, p, n) && d.count == Trail(bits, true, p, n);
        assert p <= q;
        assert Row(bits, true, p, t);
      }
    }
  }

  // ---------------------------------------------------------------------------------------------
  // A clean square wave
  // ---------------------------------------------------------------------------------------------

  /** The wave with rising edge at `edge`, high for half a period. */
  predicate High(period: int, edge: int, phase: int)
    requires period > 0
  {
    (phase - edge) % period < period / 2
  }

  /** The state of a detector for the polarity that begins at `edge`, after `n` scan steps. */
  function Scanned(period: int, edge: int, n: nat): Detector
    requires period > 0
  {
    if n == 0 then INITIAL
    else Lookup(Scanned(period, edge, n - 1), High(period, edge, (n - 1) * STEP), (n - 1) * STEP)
  }

  /** The first scan step at or after the edge. */
  function FirstStep(edge: int): int {
    (edge + STEP - 1) / STEP
  }

  /** The scan in steps: edge at step `e`, `h` steps in half a period. */
  datatype Grid = Grid(e: int, h: int) {
    predicate Valid() {
      4 * DEGLITCH <= h && 0 <= e <= 2 * h
    }

    /** High after the edge, and after the edges one period earlier and later. */
    predicate Active(i: int) {
      e <= i < e + h || e + 2 * h <= i < e + 3 * h || e - 2 * h <= i < e - h
    }

    /** The step at which the detected transition becomes active: the first edge with enough
        inactive samples before it. */
    function Hit(): int {
      if e < DEGLITCH then e + 2 * h else e
    }

    /** Where the inactive run before that step begins. */
    function Quiet(): int {
      if e < DEGLITCH then e + h else if e < h then 0 else e - h
    }

    /** The course of a detector over the scan. */
    ghost predicate Course(n: int, d: Detector) {
      if n <= Quiet() then
        d.state == WaitInactive && d.count == if e < DEGLITCH && n <= e then n else 0
      else if n < Quiet() + DEGLITCH then
        d.state == WaitInactive && d.count == n - Quiet()
      else if n <= Hit() then
        d.state == GotTransition && d.count == 0
      else if n < Hit() + DEGLITCH then
        d.state == GotTransition && d.count == n - Hit()
      else
        d.state == Done && d.phase == (Hit() - 1) * STEP
    }
  }

  lemma CourseStep(g: Grid, n: nat, d: Detector)
    requires g.Valid() && n <= 2 * g.h + 3 * DEGLITCH && g.Course(n, d)
    ensures g.Course(n + 1, Lookup(d, g.Active(n), n * STEP))
  {
  }

  /** The grid of a scan: the edge rounded up to whole steps, and the steps in half a period. */
  function GridOf(period: int, edge: int): (g: Grid)
    requires GoodPeriod(period) && 0 <= edge < period
    ensures g.Valid() && period == 2 * STEP * g.h && STEP * (g.e - 1) < edge <= STEP * g.e
  {
    Grid(FirstStep(edge), period / (2 * STEP))
  }

  lemma HighIsActive(period: int, edge: int, g: Grid, i: nat)
    requires period == 2 * STEP * g.h && STEP * (g.e - 1) < edge <= STEP * g.e
    requires g.Valid() && 0 <= edge < period && i <= 2 * g.h + 3 * DEGLITCH
    ensures High(period, edge, i * STEP) <==> g.Active(i)
  {
    var x := i * STEP - edge;
    if x < 0 {
      DivModUnique(x, period, -1, x + period);
    } else if x < period {
      DivModUnique(x, period, 0, x);
    } else {
      DivModUnique(x, period, 1, x - period);
    }
  }

  lemma {:induction false} ScanCourse(period: int, edge: int, g: Grid, n: nat)
    requires period == 2 * STEP * g.h && STEP * (g.e - 1) < edge <= STEP * g.e
    requires g.Valid() && 0 <= edge < period && n <= 2 * g.h + 3 * DEGLITCH + 1
    ensures g.Course(n, Scanned(period, edge, n))
  {
    if n > 0 {
      ScanCourse(period, edge, g, n - 1);
      HighIsActive(period, edge, g, n - 1);
      CourseStep(g, n - 1, Scanned(period, edge, n - 1));
    }
  }

  // ---------------------------------------------------------------------------------------------
  // The result of a full scan
  // ---------------------------------------------------------------------------------------------

  /** `while (phase >= period) phase -= period` */
  function Normalize(phase: int, period: int): int
    requires period > 0
    decreases phase
  {
    if phase >= period then Normalize(phase - period, period) else phase
  }

  /** The transition phase computed from the two detected phases. */
  function Combine(rising: int, falling: int, period: int): int
    requires period > 0
  {
    var r, f := Normalize(rising, period), Normalize(falling, period);
    var t := (if f > r then f - period / 2 else if f < r then f + period / 2 else 0) + r;
    var t2 := if t < 0 then -(-t / 2) else t / 2;
    var t3 := if t2 < 0 then t2 + period else t2;
    if t3 >= period then t3 - period else t3
  }

  /** Phases are brought into the period. */
  lemma {:induction false} NormalizeIsResidue(phase: int, period: int)
    requires period > 0 && phase >= 0
    ensures Normalize(phase, period) == phase % period
    decreases phase
  {
    if phase >= period {
      NormalizeIsResidue(phase - period, period);
      DivMod(phase, period);
      Around(phase / period, period);
      DivModUnique(phase - period, period, phase / period - 1, phase % period);
    } else {
      DivModUnique(phase, period, 0, phase);
    }
  }

  /** What is made of two phases of any wave: the falling one is moved by half a period, to less than that
      from the rising one, and the result is the middle of the two.  Only if both are equal it is not: then
      it is half that phase. */
  lemma CombineIsMiddle(r: int, f: int, period: int)
    requires 0 <= r < period && 0 <= f < period && period % 2 == 0
    ensures var t := Combine(r, f, period);
            && 0 <= t < period
            && (f == r ==> t == r / 2)
            && (f != r ==>
                  var g := if f > r then f - period / 2 else f + period / 2;
                  && -period / 2 < g - r < period / 2
                  && var off := 2 * t - (r + g);
                     off in {-1, 0, 1, 2 * period, 2 * period + 1, -2 * period, -2 * period - 1})
  {
  }

  /** The number of scan steps, the one at the end of the range included. */
  function Samples(period: int): nat
    requires GoodPeriod(period)
  {
    ScanRange(period) / STEP + 1
  }

  /** The last scan step strictly before the edge, brought into the period. */
  function StepBefore(g: Grid): int {
    if g.e == 0 then (2 * g.h - 1) * STEP else (g.e - 1) * STEP
  }

  /** A detector ends with the step before its edge. */
  lemma DetectorFindsEdge(period: int, edge: int, g: Grid)
    requires GoodPeriod(period) && 0 <= edge < period && g == GridOf(period, edge)
    ensures var d := Scanned(period, edge, Samples(period));
            d.state == Done && Normalize(d.phase, period) == StepBefore(g)
  {
    assert Samples(period) == 2 * g.h + 3 * DEGLITCH + 1;
    ScanCourse(period, edge, g, 2 * g.h + 3 * DEGLITCH + 1);
  }

  /** The falling edge of the wave. */
  function Opposite(period: int, edge: int): int {
    if edge < period / 2 then edge + period / 2 else edge - period / 2
  }

  /** For every clean square wave, the full scan drives both detectors to completion, and the result
      lies in the period and at most one scan step circularly before the rising edge. */
  lemma CalibrationFindsEdge(period: int, edge: int)
    requires GoodPeriod(period) && 0 <= edge < period
    ensures var rising := Scanned(period, edge, Samples(period));
            var falling := Scanned(period, Opposite(period, edge), Samples(period));
            && rising.state == Done && falling.state == Done
            && var t := Combine(rising.phase, falling.phase, period);
               && 0 <= t < period
               && 0 < (edge - t) % period <= 100
  {
    var other := Opposite(period, edge);
    var g, g' := GridOf(period, edge), GridOf(period, other);
    DetectorFindsEdge(period, edge, g);
    DetectorFindsEdge(period, other, g');
    OppositeGrid(period, edge, g, g');
    CombineAgrees(g, g', Scanned(period, edge, Samples(period)).phase,
                  Scanned(period, other, Samples(period)).phase, period);
    StepBeforeIsNear(period, edge, g);
  }

  lemma OppositeGrid(period: int, edge: int, g: Grid, g': Grid)
    requires GoodPeriod(period) && 0 <= edge < period
    requires g == GridOf(period, edge) && g' == GridOf(period, Opposite(period, edge))
    ensures g'.h == g.h && g'.e == if edge < STEP * g.h then g.e + g.h else g.e - g.h
  {
  }

  /** Both detectors tell the same rising edge. */
  lemma CombineAgrees(g: Grid, g': Grid, rising: int, falling: int, period: int)
    requires g.Valid() && g'.Valid() && period == 2 * STEP * g.h && g'.h == g.h
    requires g'.e == g.e + g.h || g'.e == g.e - g.h
    requires Normalize(rising, period) == StepBefore(g) && Normalize(falling, period) == StepBefore(g')
    ensures Combine(rising, falling, period) == StepBefore(g)
  {
    assert period / 2 == STEP * g.h;
  }

  lemma StepBeforeIsNear(period: int, edge: int, g: Grid)
    requires g.Valid() && 0 <= edge < period == 2 * STEP * g.h && STEP * (g.e - 1) < edge <= STEP * g.e
    ensures 0 <= StepBefore(g) < period && 0 < (edge - StepBefore(g)) % period <= STEP
  {
    if edge == 0 {
      DivModUnique(edge - StepBefore(g), period, -1, STEP);
    } else {
      DivModUnique(edge - StepBefore(g), period, 0, edge - StepBefore(g));
    }
  }

  // ---------------------------------------------------------------------------------------------
  // The code
  // ---------------------------------------------------------------------------------------------

  /** `struct trans_detect_state` */
  class TransDetect {
    var state: DetState
    var count: nat
    var phase: int

    constructor ()
      ensures View() == INITIAL
    {
      state, count, phase := WaitInactive, 0, 0;
    }

    function View(): Detector
      reads this
    {
      Detector(state, count, phase)
    }

    method BringDown(period: int)
      requires period > 0
      modifies this`phase
      ensures phase == Normalize(old(phase), period)
    {
      while phase >= period
        invariant Normalize(phase, period) == Normalize(old(phase), period)
        decreases phase
      {
        phase := phase - period;
      }
    }

    method LookupTransition(flip: bool, at: int, polarity: bool)
      modifies this
      ensures View() == Lookup(old(View()), flip == polarity, at)
    {
      match state
      case WaitInactive =>
        if flip != polarity {
          count := count + 1;
        } else {
          count := 0;
        }
        if count >= DEGLITCH {
          state := GotTransition;
          count := 0;
        }
      case GotTransition =>
        if flip != polarity {
          count := 0;
        } else {
          count := count + 1;
          if count >= DEGLITCH {
            state := Done;
            phase := at - DEGLITCH * STEP;
          }
        }
      case Done =>
    }
  }

  datatype Outcome = Continue | Failed | Calibrated(t24p: int)

  class Calibrator {
    const rising: TransDetect
    const falling: TransDetect
    var curPhase: int
    const period: int

    ghost predicate Valid()
      reads this
    {
      rising != falling && GoodPeriod(period)
    }

    constructor (period: int)
      requires GoodPeriod(period)
      ensures Valid() && curPhase == 0 && this.period == period
      ensures rising.View() == INITIAL && falling.View() == INITIAL && fresh(rising) && fresh(falling)
    {
      this.period := period;
      curPhase := 0;
      rising := new TransDetect();
      falling := new TransDetect();
    }

    /** The two detected phases, brought into the period and merged. */
    method Transition() returns (t: int)
      requires Valid()
      modifies rising, falling
      ensures t == Combine(old(rising.phase), old(falling.phase), period)
    {
      falling.BringDown(period);
      rising.BringDown(period);
      t := 0;
      if falling.phase > rising.phase {
        t := falling.phase - period / 2;
      } else if falling.phase < rising.phase {
        t := falling.phase + period / 2;
      }
      t := t + rising.phase;
      t := if t < 0 then -(-t / 2) else t / 2;
      if t < 0 {
        t := t + period;
      }
      if t >= period {
        t := t - period;
      }
    }

    /** One call of the calibrator with the bit read at the current phase. */
    method Update(flip: bool) returns (o: Outcome)
      requires Valid()
      modifies this`curPhase, rising, falling
      ensures var r := Lookup(old(rising.View()), flip, old(curPhase));
              var f := Lookup(old(falling.View()), !flip, old(curPhase));
              if old(curPhase) < period + 1500 then
                && o == Continue && rising.View() == r && falling.View() == f
                && curPhase == old(curPhase) + 100
              else
                && curPhase == old(curPhase)
                && o == if r.state == Done && f.state == Done then Calibrated(Combine(r.phase, f.phase, period))
                        else Failed
    {
      rising.LookupTransition(flip, curPhase, true);
      falling.LookupTransition(flip, curPhase, false);
      if curPhase >= ScanRange(period) {
        if rising.state != Done || falling.state != Done {
          return Failed;
        }
        var t := Transition();
        return Calibrated(t);
      }
      curPhase := curPhase + STEP;
      return Continue;
    }
  }

  /** After `n` samples of a clean wave both detectors are where the scan says. */
  ghost predicate Scanning(c: Calibrator, edge: int, n: nat)
    reads c, c.rising, c.falling
  {
    && c.Valid() && 0 <= edge < c.period && c.curPhase == n * STEP && n < Samples(c.period)
    && c.rising.View() == Scanned(c.period, edge, n)
    && c.falling.View() == Scanned(c.period, Opposite(c.period, edge), n)
  }

  /** One more sample of the wave. */
  method Sample(c: Calibrator, edge: int, ghost n: nat) returns (o: Outcome)
    requires Scanning(c, edge, n)
    modifies c`curPhase, c.rising, c.falling
    ensures n + 1 < Samples(c.period) ==> o == Continue && Scanning(c, edge, n + 1)
    ensures n + 1 == Samples(c.period) ==> o.Calibrated? && Near(c.period, edge, o.t24p)
  {
    var flip := (c.curPhase - edge) % c.period < c.period / 2;
    OppositeIsLow(c.period, edge, n * STEP);
    CalibrationFindsEdge(c.period, edge);
    SamplesFillRange(c.period, n);
    o := c.Update(flip);
  }

  lemma SamplesFillRange(period: int, n: nat)
    requires GoodPeriod(period) && n < Samples(period)
    ensures n * STEP < ScanRange(period) <==> n + 1 < Samples(period)
  {
    var g := GridOf(period, 0);
    assert Samples(period) == 2 * g.h + 3 * DEGLITCH + 1;
  }

  /** In the period and at most one step, circularly, before the edge. */
  predicate Near(period: int, edge: int, t: int)
    requires period > 0
  {
    0 <= t < period && 0 < (edge - t) % period <= 100
  }

  /** A full calibration against a clean wave, as driven by `measure_t24p`. */
  method Calibrate(period: int, edge: int) returns (t24p: int)
    requires GoodPeriod(period) && 0 <= edge < period
    ensures Near(period, edge, t24p)
  {
    var c := new Calibrator(period);
    var n := 0;
    while true
      invariant fresh(c) && fresh(c.rising) && fresh(c.falling)
      invariant 0 <= n < Samples(period) && c.period == period && Scanning(c, edge, n)
      decreases Samples(period) - n
    {
      var o := Sample(c, edge, n);
      n := n + 1;
      if o.Calibrated? {
        return o.t24p;
      }
    }
  }

  lemma Around(q: int, period: int)
    ensures (q - 1) * period == q * period - period && (q + 1) * period == q * period + period
  {
  }

  lemma OppositeIsLow(period: int, edge: int, phase: int)
    requires GoodPeriod(period) && 0 <= edge < period
    ensures High(period, Opposite(period, edge), phase) <==> !High(period, edge, phase)
  {
    var other, half := Opposite(period, edge), period / 2;
    var q, r := (phase - edge) / period, (phase - edge) % period;
    DivMod(phase - edge, period);
    assert other == edge + half || other == edge - half;
    HalfTurn(phase - edge, period, half, q, r);
  }

  /** Half a period either way changes the half of the wave one is in. */
  lemma HalfTurn(x: int, period: int, half: int, q: int, r: int)
    requires period == 2 * half && x == q * period + r && 0 <= r < period
    ensures (x - half) % period == (x + half) % period == if r < half then r + half else r - half
  {
    Around(q, period);
    if r < half {
      DivModUnique(x - half, period, q - 1, r + half);
      DivModUnique(x + half, period, q, r + half);
    } else {
      DivModUnique(x - half, period, q, r - half);
      DivModUnique(x + half, period, q + 1, r - half);
    }
  }
}
