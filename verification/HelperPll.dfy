/** The helper PLL: tag unwrapping, error clamp, control and lock detection (softpll/spll_helper.c). */
module HelperPll {
  import PI = PiController
  import LD = LockDetector

  const TAG_RANGE: int := 0x40_0000     // 1 << TAG_BITS
  const CYCLE: int := 0x4000            // 1 << HPLL_N
  const WRAPAROUND: int := 100_000_000  // HELPER_TAG_WRAPAROUND
  const CLAMP: int := 150_000           // HELPER_ERROR_CLAMP

  /** What stays fixed: `base` holds the gains and the output range, `reverse` the sense of the loop. */
  datatype Config = Config(base: PI.Gains, limits: LD.Limits, reverse: bool) {
    predicate Valid() {
      base.Valid() && limits.Valid()
    }

    function Gains(bias: int): PI.Gains {
      base.(bias := bias)
    }

    /** The end of the range at which a start puts the output. */
    function StartBias(): int {
      if reverse then base.yMin else base.yMax
    }
  }

  /** `tagD0` is negative until the first tag; `source` is the reference channel. */
  datatype Helper = Helper(source: int, adder: int, setpoint: int, tagD0: int, bias: int, pi: PI.Pi, ld: LD.Ld)

  /** `helper_start` */
  function Start(c: Config, source: int): Helper {
    var bias := c.StartBias();
    Helper(source, 0, 0, -1, bias, PI.Init(c.Gains(bias)), LD.INITIAL)
  }

  function Clamped(err: int): (e: int)
    ensures -150_000 <= e <= 150_000 && (-150_000 <= err <= 150_000 ==> e == err)
    ensures (err > 150_000 ==> e == 150_000) && (err < -150_000 ==> e == -150_000)
  {
    if err < -CLAMP then -CLAMP else if err > CLAMP then CLAMP else err
  }

  /** The adder after the wrap-around of the tag counter has been noticed. */
  function Unwrapped(h: Helper, tag: int): int {
    if h.tagD0 > tag then h.adder + TAG_RANGE else h.adder
  }

  /** The error computed for a tag, before clamping. */
  function Error(h: Helper, tag: int): int {
    tag + Unwrapped(h, tag) - h.setpoint
  }

  /** Both counters are brought back once they have grown large. */
  predicate Renormalizes(h: Helper, tag: int) {
    tag + Unwrapped(h, tag) > WRAPAROUND && h.setpoint > WRAPAROUND
  }

  /** `helper_update` */
  function Update(c: Config, h: Helper, tag: int, source: int): Helper
    requires c.Valid()
  {
    if source != h.source then h
    else if h.tagD0 < 0 then h.(setpoint := tag, tagD0 := tag)
    else
      var err := Clamped(Error(h, tag));
      var back := if Renormalizes(h, tag) then WRAPAROUND else 0;
      Helper(h.source, Unwrapped(h, tag) - back, h.setpoint - back + CYCLE, tag, h.bias,
             PI.Update(c.Gains(h.bias), h.pi, err), LD.Update(c.limits, h.ld, err))
  }

  // ---------------------------------------------------------------------------------------------
  // Runs
  // ---------------------------------------------------------------------------------------------

  /** The true tags, as unbounded counts; the hardware delivers them modulo 2^22. */
  ghost predicate GoodTags(ts: seq<int>) {
    forall i {:trigger ts[i]} :: 0 <= i < |ts| - 1 ==> 0 <= ts[i+1] - ts[i] < TAG_RANGE
  }

  /** The helper after the first `n` tags since its start. */
  function After(c: Config, source: int, ts: seq<int>, n: nat): Helper
    requires c.Valid() && n <= |ts|
  {
    if n == 0 then Start(c, source) else Update(c, After(c, source, ts, n - 1), ts[n-1] % TAG_RANGE, source)
  }

  /** What the helper knows after `n` tags: the unwrapped tag and the setpoint differ by the true
      error for the next cycle. */
  ghost predicate Tracks(c: Config, source: int, h: Helper, ts: seq<int>, n: nat)
    requires 0 < n <= |ts|
  {
    && h.source == source && h.bias == c.StartBias()
    && h.tagD0 == ts[n-1] % TAG_RANGE
    && h.tagD0 + h.adder - h.setpoint == ts[n-1] - ts[0] - (n - 1) * CYCLE
  }

  lemma WrapIsNoticed(a: int, b: int)
    requires 0 <= b - a < TAG_RANGE
    ensures b % 0x40_0000 + (if a % 0x40_0000 > b % 0x40_0000 then 0x40_0000 else 0) - a % 0x40_0000 == b - a
  {
  }

  lemma {:induction false} HelperTracks(c: Config, source: int, ts: seq<int>, n: nat)
    requires c.Valid() && GoodTags(ts) && 0 < n <= |ts|
    ensures Tracks(c, source, After(c, source, ts, n), ts, n)
  {
    if n > 1 {
      HelperTracks(c, source, ts, n - 1);
      assert 0 <= ts[n-2+1] - ts[n-2] < TAG_RANGE;
      WrapIsNoticed(ts[n-2], ts[n-1]);
      assert After(c, source, ts, n) == Update(c, After(c, source, ts, n - 1), ts[n-1] % TAG_RANGE, source);
    }
  }

  /** The true error of tag `n`: its distance from the `n-1` cycles expected since the first one. */
  function TrueError(ts: seq<int>, n: nat): int
    requires 0 < n < |ts|
  {
    ts[n] - ts[0] - (n - 1) * CYCLE
  }

  /** The error computed for tag `n` is the true one, whatever the wraps and renormalizations. */
  lemma ErrorIsTrue(c: Config, source: int, ts: seq<int>, n: nat)
    requires c.Valid() && GoodTags(ts) && 0 < n < |ts|
    ensures Error(After(c, source, ts, n), ts[n] % TAG_RANGE) == TrueError(ts, n)
    ensures TAG_RANGE == 0x40_0000 && TrueError(ts, n) == ts[n] - ts[0] - (n - 1) * 0x4000
  {
    HelperTracks(c, source, ts, n);
    assert 0 <= ts[n-1+1] - ts[n-1] < TAG_RANGE;
    WrapIsNoticed(ts[n-1], ts[n]);
  }

  /** With the true error bounded by `E`, the setpoint stays in its range. */
  lemma {:induction false} SetpointInRange(c: Config, source: int, ts: seq<int>, E: int, n: nat)
    requires c.Valid() && GoodTags(ts) && 0 < n <= |ts| && 0 <= E
    requires forall i :: 0 < i < n ==> -E <= TrueError(ts, i) <= E
    ensures 0 <= After(c, source, ts, n).setpoint <= 100_000_000 + E + 0x4000
  {
    if n > 1 {
      SetpointInRange(c, source, ts, E, n - 1);
      ErrorIsTrue(c, source, ts, n - 1);
      HelperTracks(c, source, ts, n - 1);
      assert After(c, source, ts, n) == Update(c, After(c, source, ts, n - 1), ts[n-1] % TAG_RANGE, source);
    } else {
      assert After(c, source, ts, 1) == Update(c, After(c, source, ts, 0), ts[0] % TAG_RANGE, source);
      assert After(c, source, ts, 0) == Start(c, source);
    }
  }

  predicate Int32(x: int) { -0x8000_0000 <= x < 0x8000_0000 }

  /** So no quantity the helper computes leaves 32 bits, for errors up to 10^9. */
  lemma NoOverflow(c: Config, source: int, ts: seq<int>, E: int, n: nat)
    requires c.Valid() && GoodTags(ts) && 0 < n < |ts| && 0 <= E <= 1_000_000_000
    requires forall i :: 0 < i <= n ==> -E <= TrueError(ts, i) <= E
    ensures var h := After(c, source, ts, n);
            var tag := ts[n] % TAG_RANGE;
            && Int32(h.adder) && Int32(Unwrapped(h, tag)) && Int32(h.setpoint) && Int32(h.setpoint + CYCLE)
            && Int32(tag + Unwrapped(h, tag)) && Int32(Error(h, tag))
  {
    SetpointInRange(c, source, ts, E, n);
    ErrorIsTrue(c, source, ts, n);
  }

  /** The clamped errors seen by the controller. */
  function Errors(ts: seq<int>, n: nat): (es: seq<int>)
    requires n < |ts|
    ensures |es| == n
    ensures forall i :: 0 <= i < n ==> PI.Abs(es[i]) <= CLAMP
  {
    if n == 0 then [] else Errors(ts, n - 1) + [Clamped(TrueError(ts, n))]
  }

  /** Controller and lock detector run on exactly the clamped true errors, one per tag after the
      first; the bounds proved for them hold for the helper. */
  lemma {:induction false} LoopsSeeTrueErrors(c: Config, source: int, ts: seq<int>, n: nat)
    requires c.Valid() && GoodTags(ts) && n < |ts|
    ensures var h, es := After(c, source, ts, n + 1), Errors(ts, n);
            h.pi == PI.Run(c.Gains(c.StartBias()), es) && h.ld == LD.After(c.limits, es, n)
  {
    if n == 0 {
      assert After(c, source, ts, 1) == Update(c, After(c, source, ts, 0), ts[0] % TAG_RANGE, source);
    } else {
      LoopsSeeTrueErrors(c, source, ts, n - 1);
      ErrorIsTrue(c, source, ts, n);
      HelperTracks(c, source, ts, n);
      LoopsStep(c, Errors(ts, n - 1), Clamped(TrueError(ts, n)));
      assert After(c, source, ts, n + 1) == Update(c, After(c, source, ts, n), ts[n] % TAG_RANGE, source);
    }
  }

  lemma DetectorSeesTrueErrors(c: Config, source: int, ts: seq<int>, n: nat)
    requires c.Valid() && GoodTags(ts) && n < |ts|
    ensures After(c, source, ts, n + 1).ld == LD.After(c.limits, Errors(ts, n), n)
  {
    LoopsSeeTrueErrors(c, source, ts, n);
  }

  lemma {:induction false} ErrorAt(ts: seq<int>, n: nat, i: nat)
    requires i < n < |ts|
    ensures Errors(ts, n)[i] == Clamped(TrueError(ts, i + 1))
  {
    if i < n - 1 { ErrorAt(ts, n - 1, i); }
  }

  /** When the helper locks: if its errors are out of range until tag `k` and in range from there on,
      it is locked exactly from `k + lockSamples` tags on. */
  lemma HelperPullsIn(c: Config, source: int, ts: seq<int>, k: nat, n: nat)
    requires c.Valid() && c.limits.threshold < CLAMP && GoodTags(ts) && 1 <= k && n <= |ts|
    requires forall i {:trigger TrueError(ts, i)} :: 0 < i < n ==> (c.limits.InRange(TrueError(ts, i)) <==> i >= k)
    ensures After(c, source, ts, n).ld.locked <==> n >= k + c.limits.lockSamples
  {
    if n > 0 {
      DetectorSeesTrueErrors(c, source, ts, n - 1);
      var es := Errors(ts, n - 1);
      forall i | 0 <= i < n - 1 ensures c.limits.InRange(es[i]) <==> i >= k - 1 {
        ErrorAt(ts, n - 1, i);
      }
      LD.PullIn(c.limits, es, k - 1, n - 1);
    }
  }

  /** Whatever its errors were before tag `k`, it is locked after `lockSamples` good ones. */
  lemma HelperSettles(c: Config, source: int, ts: seq<int>, k: nat, n: nat)
    requires c.Valid() && GoodTags(ts) && 1 <= k && k + c.limits.lockSamples <= n <= |ts|
    requires forall i {:trigger TrueError(ts, i)} :: k <= i < n ==> c.limits.InRange(TrueError(ts, i))
    ensures After(c, source, ts, n).ld.locked
  {
    DetectorSeesTrueErrors(c, source, ts, n - 1);
    var es := Errors(ts, n - 1);
    forall i | k - 1 <= i < n - 1 ensures c.limits.InRange(es[i]) {
      ErrorAt(ts, n - 1, i);
    }
    LD.SteadyInputSettles(c.limits, es, n - 1, n - k);
  }

  /** The loop has to pull in one cycle: a reference that ticks in step from the first tag on stays a
      whole cycle off, and the helper never locks. */
  lemma InStepNeverLocks(c: Config, source: int, ts: seq<int>, n: nat)
    requires c.Valid() && c.limits.threshold < CYCLE && n <= |ts|
    requires forall i {:trigger ts[i]} :: 0 <= i < |ts| ==> ts[i] == ts[0] + i * CYCLE
    ensures !After(c, source, ts, n).ld.locked
  {
    forall i {:trigger TrueError(ts, i)} | 0 < i < |ts| ensures TrueError(ts, i) == CYCLE {
      assert ts[i] == ts[0] + i * CYCLE;
    }
    HelperPullsIn(c, source, ts, |ts| + 1, n);
  }

  lemma LoopsStep(c: Config, es: seq<int>, e: int)
    requires c.Valid()
    ensures var g := c.Gains(c.StartBias()); PI.Run(g, es + [e]) == PI.Update(g, PI.Run(g, es), e)
    ensures LD.After(c.limits, es + [e], |es| + 1) == LD.Update(c.limits, LD.After(c.limits, es, |es|), e)
  {
    assert (es + [e])[..|es|] == es;
    LdPrefix(c.limits, es, es + [e], |es|);
  }

  lemma {:induction false} LdPrefix(l: LD.Limits, a: seq<int>, b: seq<int>, n: nat)
    requires n <= |a| && a <= b
    ensures LD.After(l, a, n) == LD.After(l, b, n)
  {
    if n > 0 { LdPrefix(l, a, b, n - 1); }
  }

  // ---------------------------------------------------------------------------------------------
  // The code
  // ---------------------------------------------------------------------------------------------

  /** `struct spll_helper_state` */
  class HelperState {
    const config: Config
    var source: int
    var adder: int
    var setpoint: int
    var tagD0: int
    const pi: PI.SpllPi
    const ld: LD.LockDet
    var dac: int

    ghost predicate Valid()
      reads pi
    {
      config.Valid() && pi.gains == config.Gains(pi.gains.bias) && ld.limits == config.limits
    }

    constructor (c: Config, ref: int)
      requires c.Valid()
      ensures Valid() && config == c && source == ref && fresh(pi) && fresh(ld)
    {
      config, source := c, ref;
      adder, setpoint, tagD0, dac := 0, 0, -1, 0;
      pi := new PI.SpllPi(c.base);
      ld := new LD.LockDet(c.limits);
    }

    function View(): Helper
      reads this, pi, ld
    {
      Helper(source, adder, setpoint, tagD0, pi.gains.bias, pi.View(), ld.View())
    }

    /** `helper_init` */
    method HelperInit(ref: int)
      requires Valid()
      modifies this`source
      ensures Valid() && View() == old(View()).(source := ref)
    {
      source := ref;
    }

    /** `helper_start` */
    method HelperStart()
      requires Valid()
      modifies this, pi, ld
      ensures Valid() && View() == Start(config, old(source))
      ensures pi.y == (if config.reverse then config.base.yMin else config.base.yMax) && !ld.locked && tagD0 < 0
    {
      pi.gains := pi.gains.(bias := if config.reverse then pi.gains.yMin else pi.gains.yMax);
      setpoint := 0;
      adder := 0;
      tagD0 := -1;
      pi.PiInit();
      ld.LdInit();
    }

    method HelperUpdate(tag: int, tagSource: int)
      requires Valid()
      modifies this, pi, ld
      ensures Valid() && View() == Update(config, old(View()), tag, tagSource)
      ensures dac == if tagSource == source && old(tagD0) >= 0 then pi.y else old(dac)
    {
      if tagSource != source {
        return;
      }
      if tagD0 < 0 {
        setpoint := tag;
        tagD0 := tag;
        return;
      }
      if tagD0 > tag {
        adder := adder + TAG_RANGE;
      }
      var err := tag + adder - setpoint;
      if err < -CLAMP {
        err := -CLAMP;
      }
      if err > CLAMP {
        err := CLAMP;
      }
      if tag + adder > WRAPAROUND && setpoint > WRAPAROUND {
        adder := adder - WRAPAROUND;
        setpoint := setpoint - WRAPAROUND;
      }
      setpoint := setpoint + CYCLE;
      tagD0 := tag;
      dac := pi.PiUpdate(err);
      var _ := ld.LdUpdate(err);
    }
  }
}
