/** Phase averaging across the wrap-around (softpll/spll_ptracker.c, softpll/softpll_ng.c). */
module PhaseTracker {
  import opened Arith

  const FULL: int := 0x4000      // 1 << HPLL_N
  const QUARTER: int := 0x1000

  /** `a / b` as C computes it. */
  function Truncated(a: int, b: int): (q: int)
    requires b > 0
    ensures a >= 0 ==> q * b <= a < q * b + b
    ensures a <= 0 ==> q * b - b < a <= q * b
  {
    TruncatedBounds(a, b);
    if a < 0 then -(-a / b) else a / b
  }

  lemma TruncatedBounds(a: int, b: int)
    requires b > 0
    ensures var q := if a < 0 then -(-a / b) else a / b;
            (a >= 0 ==> q * b <= a < q * b + b) && (a <= 0 ==> q * b - b < a <= q * b)
  {
    DivMod(a, b);
    DivMod(-a, b);
    Negated(-a / b, b);
  }

  datatype Tracker = Tracker(acc: int, count: nat, firstQuarter: int, phase: int, ready: bool)

  /** The lookup table: a sample in the last quarter seen from the first one lies one turn below, and
      a sample in the first quarter seen from the last one lies one turn above. */
  function Adjustment(firstQuarter: int, quarter: int): int {
    if firstQuarter == 0 && quarter == 3 then -FULL
    else if firstQuarter == 3 && quarter == 0 then FULL
    else 0
  }

  /** One phase sample `delta`, already reduced to a full turn. */
  function Sample(t: Tracker, nAvg: int, delta: int): Tracker {
    var quarter := delta / QUARTER;
    if t.count == 0 then t.(firstQuarter := quarter, acc := delta, count := 1)
    else
      var acc := t.acc + delta + Adjustment(t.firstQuarter, quarter);
      if t.count + 1 == nAvg then Tracker(0, 0, t.firstQuarter, Truncated(acc, nAvg), true)
      else t.(acc := acc, count := t.count + 1)
  }

  /** The tracker after a run of true (unreduced) phases. */
  function After(t: Tracker, nAvg: int, ps: seq<int>): Tracker {
    if ps == [] then t else Sample(After(t, nAvg, ps[..|ps|-1]), nAvg, ps[|ps|-1] % FULL)
  }

  // ---------------------------------------------------------------------------------------------
  // Averaging one window
  // ---------------------------------------------------------------------------------------------

  /** All phases lie within a quarter turn of the first one. */
  ghost predicate Close(ps: seq<int>) {
    forall i {:trigger ps[i]} :: 0 <= i < |ps| ==> -QUARTER <= ps[i] - ps[0] <= QUARTER
  }

  /** The phases counted from the turn of the first one. */
  function Unwrapped(ps: seq<int>, i: nat): int
    requires i < |ps|
  {
    ps[0] % FULL + (ps[i] - ps[0])
  }

  function Sum(ps: seq<int>, n: nat): int
    requires n <= |ps|
  {
    if n == 0 then 0 else Sum(ps, n - 1) + Unwrapped(ps, n - 1)
  }

  /** A close sample, adjusted by the table, is the unwrapped phase. */
  lemma AdjustedIsUnwrapped(a: int, b: int)
    requires -QUARTER <= b - a <= QUARTER
    ensures b % FULL + Adjustment((a % FULL) / QUARTER, (b % FULL) / QUARTER) == a % FULL + (b - a)
  {
    var x := a % FULL + (b - a);
    var k := if x < 0 then -1 else if x < FULL then 0 else 1;
    DivModUnique(b, FULL, a / FULL + k, x - k * FULL);
  }

  /** Within a window the accumulator is the sum of the unwrapped phases. */
  lemma {:induction false} AccumulatorIsSum(t: Tracker, nAvg: int, ps: seq<int>)
    requires t.count == 0 && 0 < |ps| < nAvg && Close(ps)
    ensures var r := After(t, nAvg, ps);
            && r.acc == Sum(ps, |ps|) && r.count == |ps|
            && r.firstQuarter == (ps[0] % FULL) / QUARTER
            && r.phase == t.phase && r.ready == t.ready
  {
    var n := |ps| - 1;
    var init, last := ps[..n], ps[n];
    if n == 0 {
      assert Sum(ps, 1) == Sum(ps, 0) + Unwrapped(ps, 0);
      assert After(t, nAvg, init) == t;
    } else {
      assert forall i {:trigger init[i]} :: 0 <= i < |init| ==> init[i] == ps[i];
      AccumulatorIsSum(t, nAvg, init);
      SumPrefix(ps, n);
      AdjustedIsUnwrapped(ps[0], last);
    }
  }

  lemma SumPrefix(ps: seq<int>, n: nat)
    requires 0 < n <= |ps|
    ensures Sum(ps[..n], n) == Sum(ps, n)
  {
    SumPrefixAt(ps, n, n);
  }

  lemma {:induction false} SumPrefixAt(ps: seq<int>, n: nat, m: nat)
    requires 0 < n <= |ps| && m <= n
    ensures Sum(ps[..n], m) == Sum(ps, m)
  {
    if m > 0 { SumPrefixAt(ps, n, m - 1); }
  }

  /** A full window of close phases publishes their truncated mean and starts afresh. */
  lemma WindowPublishesMean(t: Tracker, nAvg: int, ps: seq<int>)
    requires t.count == 0 && 2 <= nAvg == |ps| && Close(ps)
    ensures var r := After(t, nAvg, ps);
            r.ready && r.count == 0 && r.acc == 0 && r.phase == Truncated(Sum(ps, nAvg), nAvg)
  {
    var n := nAvg - 1;
    var init := ps[..n];
    assert forall i {:trigger init[i]} :: 0 <= i < |init| ==> init[i] == ps[i];
    AccumulatorIsSum(t, nAvg, init);
    SumPrefix(ps, n);
    AdjustedIsUnwrapped(ps[0], ps[n]);
  }

  lemma {:induction false} AfterConcat(t: Tracker, nAvg: int, a: seq<int>, b: seq<int>)
    ensures After(t, nAvg, a + b) == After(After(t, nAvg, a), nAvg, b)
  {
    if b == [] {
      assert a + b == a;
    } else {
      AfterConcat(t, nAvg, a, b[..|b|-1]);
      assert (a + b)[..|a+b|-1] == a + b[..|b|-1];
    }
  }

  // ---------------------------------------------------------------------------------------------
  // Averaging a whole run
  // ---------------------------------------------------------------------------------------------

  /** Before the window is full a run only counts; close or not. */
  lemma {:induction false} PartOfWindow(t: Tracker, nAvg: int, ps: seq<int>)
    requires t.count == 0 && (|ps| < nAvg || nAvg < 2)
    ensures var r := After(t, nAvg, ps); r.count == |ps| && r.phase == t.phase && r.ready == t.ready
  {
    if ps != [] { PartOfWindow(t, nAvg, ps[..|ps|-1]); }
  }

  lemma WholeWindow(t: Tracker, nAvg: int, ps: seq<int>)
    requires t.count == 0 && 2 <= nAvg == |ps|
    ensures var r := After(t, nAvg, ps); r.ready && r.count == 0
  {
    PartOfWindow(t, nAvg, ps[..nAvg-1]);
  }

  lemma {:induction false} WholeWindows(t: Tracker, nAvg: int, ps: seq<int>, k: nat)
    requires t.count == 0 && 2 <= nAvg && |ps| == k * nAvg
    ensures var r := After(t, nAvg, ps); r.count == 0 && (k > 0 ==> r.ready)
  {
    if k > 0 {
      var m := (k - 1) * nAvg;
      assert m + nAvg == |ps|;
      WholeWindows(t, nAvg, ps[..m], k - 1);
      AfterConcat(t, nAvg, ps[..m], ps[m..]);
      assert ps[..m] + ps[m..] == ps;
      WholeWindow(After(t, nAvg, ps[..m]), nAvg, ps[m..]);
    }
  }

  /** The last full window of `nAvg` phases in a run. */
  function LastWindow(nAvg: int, ps: seq<int>): (w: seq<int>)
    requires 0 < nAvg <= |ps|
    ensures |w| == nAvg
  {
    LastWindowFits(nAvg, |ps|);
    ps[(|ps| / nAvg - 1) * nAvg..|ps| / nAvg * nAvg]
  }

  lemma LastWindowFits(nAvg: int, n: int)
    requires 0 < nAvg <= n
    ensures 0 <= (n / nAvg - 1) * nAvg <= n / nAvg * nAvg <= n < n / nAvg * nAvg + nAvg
    ensures n / nAvg * nAvg == (n / nAvg - 1) * nAvg + nAvg
  {
    FloorBound(n, nAvg, 1);
    MulMonotone(0, n / nAvg - 1, nAvg);
    assert n == n / nAvg * nAvg + n % nAvg;
    assert (n / nAvg - 1) * nAvg == n / nAvg * nAvg - nAvg;
  }

  /** At every moment of a run the tracker is ready iff it has seen a full window, and if the last
      full window was close it shows the truncated mean of exactly that window. With an average of
      one sample or none it never gets ready. */
  lemma RunPublishes(t: Tracker, nAvg: int, ps: seq<int>)
    requires t.count == 0 && !t.ready
    ensures var r := After(t, nAvg, ps);
            && (r.ready <==> 2 <= nAvg <= |ps|)
            && (!r.ready ==> r.phase == t.phase)
            && (2 <= nAvg <= |ps| && Close(LastWindow(nAvg, ps)) ==>
                  r.phase == Truncated(Sum(LastWindow(nAvg, ps), nAvg), nAvg))
  {
    if 2 <= nAvg <= |ps| {
      LastWindowFits(nAvg, |ps|);
      var k := |ps| / nAvg;
      var before, window, rest := ps[..(k - 1) * nAvg], LastWindow(nAvg, ps), ps[k * nAvg..];
      Windows(t, nAvg, before, window, rest, k - 1);
      assert ps == before + window + rest;
    } else {
      PartOfWindow(t, nAvg, ps);
    }
  }

  lemma Windows(t: Tracker, nAvg: int, before: seq<int>, window: seq<int>, rest: seq<int>, k: nat)
    requires t.count == 0 && 2 <= nAvg == |window| && |before| == k * nAvg && |rest| < nAvg
    ensures var r := After(t, nAvg, before + window + rest);
            r.ready && (Close(window) ==> r.phase == Truncated(Sum(window, nAvg), nAvg))
  {
    WholeWindows(t, nAvg, before, k);
    var atWindow := After(t, nAvg, before);
    AfterConcat(t, nAvg, before, window);
    WholeWindow(atWindow, nAvg, window);
    if Close(window) { WindowPublishesMean(atWindow, nAvg, window); }
    AfterConcat(t, nAvg, before + window, rest);
    PartOfWindow(After(atWindow, nAvg, window), nAvg, rest);
  }

  /** Whatever the phases, the accumulator grows by at most five quarters of a turn a sample. */
  lemma {:induction false} AccumulatorRange(t: Tracker, nAvg: int, ps: seq<int>)
    requires t.count < nAvg && 2 <= nAvg && -QUARTER * t.count <= t.acc <= (FULL + QUARTER) * t.count
    ensures var r := After(t, nAvg, ps);
            r.count < nAvg && -QUARTER * r.count <= r.acc <= (FULL + QUARTER) * r.count
  {
    if ps != [] { AccumulatorRange(t, nAvg, ps[..|ps|-1]); }
  }

  // ---------------------------------------------------------------------------------------------
  // Reading the tracker
  // ---------------------------------------------------------------------------------------------

  /** The published phase brought back to one turn. */
  function Reduced(phase: int): int {
    if phase < 0 then phase + FULL else if phase >= FULL then phase - FULL else phase
  }

  /** What a reader of the tracker gets, with halved clocks twice the phase within one turn. */
  function Read(phase: int, halved: bool): int {
    if halved then (2 * Reduced(phase)) % FULL else Reduced(phase)
  }

  /** `to_picos`: 2^14 units are one period, rounded down. */
  function ToPicos(units: int, period: int): (p: int)
    ensures p * 0x4000 <= units * period < (p + 1) * 0x4000
  {
    (units * period) / FULL
  }

  lemma {:induction false} SumRange(ps: seq<int>, n: nat)
    requires Close(ps) && n <= |ps|
    ensures -QUARTER * n <= Sum(ps, n) <= (FULL + QUARTER - 1) * n
  {
    if n > 0 {
      SumRange(ps, n - 1);
      assert -QUARTER <= ps[n-1] - ps[0] <= QUARTER;
    }
  }

  lemma TruncatedRange(a: int, n: int, lo: int, hi: int)
    requires n > 0 && lo <= 0 <= hi && lo * n <= a <= hi * n
    ensures lo <= Truncated(a, n) <= hi
  {
    if a < 0 {
      Negated(lo, n);
      QuotientRange(-a, n, -lo);
    } else {
      QuotientRange(a, n, hi);
    }
  }

  lemma Negated(x: int, n: int)
    ensures (-x) * n == -(x * n)
  {
  }

  lemma QuotientRange(m: int, n: int, k: int)
    requires n > 0 && 0 <= m <= k * n
    ensures 0 <= m / n <= k
  {
    FloorBound(m, n, k + 1);
    FloorBound(m, n, 0);
    assert (k + 1) * n == k * n + n;
  }

  lemma MeanRange(ps: seq<int>, n: nat)
    requires Close(ps) && 0 < n <= |ps|
    ensures -QUARTER <= Truncated(Sum(ps, n), n) <= FULL + QUARTER - 1
  {
    SumRange(ps, n);
    TruncatedRange(Sum(ps, n), n, -QUARTER, FULL + QUARTER - 1);
  }

  lemma ReducedIsResidue(phase: int)
    requires -FULL <= phase < 2 * FULL
    ensures 0 <= Reduced(phase) < FULL && Reduced(phase) == phase % FULL
  {
    DivModUnique(phase, FULL, if phase < 0 then -1 else if phase >= FULL then 1 else 0, Reduced(phase));
  }

  lemma PicosRange(units: int, period: int)
    requires 0 <= units < FULL && period > 0
    ensures 0 <= ToPicos(units, period) < period
  {
    MulMonotone(0, units, period);
    MulMonotone(units, FULL - 1, period);
    FloorBound(units * period, FULL, period);
  }

  lemma ReadIsResidue(phase: int, halved: bool)
    requires -FULL <= phase < 2 * FULL
    ensures Read(phase, halved) == (if halved then 2 * phase else phase) % FULL
  {
    ReducedIsResidue(phase);
    if halved {
      var q := phase / FULL;
      var r := (2 * (phase % FULL)) % FULL;
      DivModUnique(2 * phase, FULL, 2 * q + (2 * (phase % FULL)) / FULL, r);
    }
  }

  /** A reader of a ready tracker whose last full window was close gets its mean modulo one turn, in
      picoseconds within the clock period. */
  lemma ReadIsMean(t: Tracker, nAvg: int, ps: seq<int>, halved: bool, period: int)
    requires t.count == 0 && !t.ready && 2 <= nAvg <= |ps| && Close(LastWindow(nAvg, ps)) && period > 0
    ensures var mean := Truncated(Sum(LastWindow(nAvg, ps), nAvg), nAvg);
            var read := Read(After(t, nAvg, ps).phase, halved);
            && 0 <= read < FULL && read == (if halved then 2 * mean else mean) % FULL
            && 0 <= ToPicos(read, period) < period
  {
    RunPublishes(t, nAvg, ps);
    var w := LastWindow(nAvg, ps);
    MeanRange(w, nAvg);
    ReadIsResidue(Truncated(Sum(w, nAvg), nAvg), halved);
    PicosRange(Read(Truncated(Sum(w, nAvg), nAvg), halved), period);
  }

  // ---------------------------------------------------------------------------------------------
  // All trackers and the tags they share
  // ---------------------------------------------------------------------------------------------

  datatype Channel = Channel(enabled: bool, nAvg: int, tracker: Tracker)

  /** The trackers of the reference channels and the latest tag of the main channel, whose number is
      the number of reference channels. */
  datatype Bank = Bank(reverse: bool, tagRef: int, channels: seq<Channel>)

  datatype Input = Tag(tag: int, source: nat) | Start(id: nat) | Average(id: nat, n: int)

  /** Forgets the window in progress and the readiness, but not the phase shown. */
  function Restarted(t: Tracker): Tracker {
    Tracker(0, 0, 0, t.phase, false)
  }

  function Difference(reverse: bool, tagRef: int, tag: int): int {
    if reverse then tag - tagRef else tagRef - tag
  }

  function Step(b: Bank, e: Input): (r: Bank)
    ensures |r.channels| == |b.channels| && r.reverse == b.reverse
  {
    match e
    case Tag(tag, source) =>
      if source == |b.channels| then b.(tagRef := tag)
      else if source > |b.channels| || !b.channels[source].enabled then b
      else
        var c := b.channels[source];
        var sampled := Sample(c.tracker, c.nAvg, Difference(b.reverse, b.tagRef, tag) % FULL);
        b.(channels := b.channels[source := c.(tracker := sampled)])
    case Start(id) =>
      if id >= |b.channels| then b
      else
        var c := b.channels[id];
        b.(channels := b.channels[id := c.(enabled := true, tracker := Restarted(c.tracker))])
    case Average(id, n) =>
      if id >= |b.channels| then b
      else
        var c := b.channels[id];
        b.(channels := b.channels[id := c.(nAvg := n, tracker := Restarted(c.tracker))])
  }

  function Run(b: Bank, es: seq<Input>): (r: Bank)
    ensures |r.channels| == |b.channels| && r.reverse == b.reverse
  {
    if es == [] then b else Step(Run(b, es[..|es|-1]), es[|es|-1])
  }

  /** No window in progress and none seen. */
  predicate Fresh(t: Tracker) {
    t.acc == 0 && t.count == 0 && !t.ready
  }

  /** As `ptracker_init` leaves the trackers. */
  ghost predicate Initial(b: Bank) {
    forall i {:trigger b.channels[i]} :: 0 <= i < |b.channels| ==>
      !b.channels[i].enabled && Fresh(b.channels[i].tracker)
  }

  /** The last tag of channel `main`, or what the reference was before the run. */
  function Reference(before: int, main: nat, es: seq<Input>): int {
    if es == [] then before
    else
      var last := es[|es|-1];
      if last.Tag? && last.source == main then last.tag else Reference(before, main, es[..|es|-1])
  }

  /** Whether a channel was started in the run. */
  predicate Started(es: seq<Input>, id: nat) {
    Start(id) in es
  }

  /** The phases of a channel since it was last started or given an average: the distance of each of
      its tags, once it is started, from the main tag before it. */
  function Phases(b: Bank, es: seq<Input>, id: nat): seq<int> {
    if es == [] then []
    else
      var init, last := es[..|es|-1], es[|es|-1];
      if !last.Tag? then (if last.id == id then [] else Phases(b, init, id))
      else if last.source == id && Started(init, id)
      then
        var main := Reference(b.tagRef, |b.channels|, init);
        Phases(b, init, id) + [if b.reverse then last.tag - main else main - last.tag]
      else Phases(b, init, id)
  }

  /** The average set last. */
  function AverageOf(b: Bank, es: seq<Input>, id: nat): int
    requires id < |b.channels|
  {
    if es == [] then b.channels[id].nAvg
    else
      var last := es[|es|-1];
      if last.Average? && last.id == id then last.n else AverageOf(b, es[..|es|-1], id)
  }

  lemma {:induction false} RunReference(b: Bank, es: seq<Input>)
    ensures Run(b, es).tagRef == Reference(b.tagRef, |b.channels|, es)
  {
    if es != [] { RunReference(b, es[..|es|-1]); }
  }

  /** Over every run a channel's tracker is that of its own phases alone: tags of other channels and
      commands to them leave no trace. */
  lemma {:induction false} ChannelRun(b: Bank, es: seq<Input>, id: nat) returns (t: Tracker)
    requires Initial(b) && id < |b.channels|
    ensures var c := Run(b, es).channels[id];
            && (c.enabled <==> Started(es, id))
            && c.nAvg == AverageOf(b, es, id)
            && Fresh(t) && c.tracker == After(t, c.nAvg, Phases(b, es, id))
  {
    if es == [] {
      t := b.channels[id].tracker;
    } else {
      var init, last := es[..|es|-1], es[|es|-1];
      t := ChannelRun(b, init, id);
      RunReference(b, init);
      assert es == init + [last];
      if !last.Tag? && last.id == id {
        t := Restarted(Run(b, init).channels[id].tracker);
      } else if last.Tag? && last.source == id && Started(init, id) {
        var ps := Phases(b, es, id);
        assert ps[..|ps|-1] == Phases(b, init, id);
      }
    }
  }

  /** What a reader gets from channel `id` after any run: ready iff a full window of its phases was
      seen since the last start, and then, if those were close, their mean modulo one turn. */
  lemma ReadAfterRun(b: Bank, es: seq<Input>, id: nat, halved: bool, period: int)
    requires Initial(b) && id < |b.channels| && period > 0
    ensures var c := Run(b, es).channels[id].tracker;
            var n, ps := AverageOf(b, es, id), Phases(b, es, id);
            && (c.ready <==> 2 <= n <= |ps|)
            && (c.ready && Close(LastWindow(n, ps)) ==>
                  var mean := Truncated(Sum(LastWindow(n, ps), n), n);
                  && Read(c.phase, halved) == (if halved then 2 * mean else mean) % 0x4000
                  && 0 <= ToPicos(Read(c.phase, halved), period) < period)
  {
    var t := ChannelRun(b, es, id);
    var n, ps := AverageOf(b, es, id), Phases(b, es, id);
    RunPublishes(t, n, ps);
    if 2 <= n <= |ps| && Close(LastWindow(n, ps)) { ReadIsMean(t, n, ps, halved, period); }
  }

  /** With an average of 2 to 104857 samples no accumulator leaves 32 bits, nor does the sum with the
      sample of any next tag, which is what a full window divides. */
  lemma AccumulatorFits(b: Bank, es: seq<Input>, id: nat, delta: int)
    requires Initial(b) && id < |b.channels| && 2 <= AverageOf(b, es, id) <= 104857 && 0 <= delta < FULL
    ensures var t := Run(b, es).channels[id].tracker;
            && -0x8000_0000 <= t.acc < 0x8000_0000
            && -0x8000_0000 <= t.acc + delta + Adjustment(t.firstQuarter, delta / QUARTER) < 0x8000_0000
  {
    var t := ChannelRun(b, es, id);
    AccumulatorRange(t, AverageOf(b, es, id), Phases(b, es, id));
  }

  // ---------------------------------------------------------------------------------------------
  // The code
  // ---------------------------------------------------------------------------------------------

  /** One tracked channel as the firmware stores it: `preserveSign` is four times the quarter of the
      first sample and selects a row of the table. */
  datatype State = State(enabled: bool, nAvg: int, acc: int, avgCount: nat, preserveSign: int, phaseVal: int,
                         ready: bool) {
    ghost predicate Valid() {
      0 <= preserveSign < 16 && preserveSign % 4 == 0
    }

    function View(): Channel {
      Channel(enabled, nAvg, Tracker(acc, avgCount, preserveSign / 4, phaseVal, ready))
    }
  }

  function Channels(s: seq<State>): (cs: seq<Channel>)
    ensures |cs| == |s|
  {
    seq(|s|, i requires 0 <= i < |s| => s[i].View())
  }

  lemma ChannelsUpdated(s: seq<State>, i: nat, x: State)
    requires i < |s|
    ensures Channels(s[i := x]) == Channels(s)[i := x.View()] && Channels(s)[i] == s[i].View()
  {
  }

  function AdjTab(i: int): int {
    if i == 3 then -FULL else if i == 12 then FULL else 0
  }

  class PTrackers {
    const reverse: bool
    const s: array<State>
    var tagRef: int

    /** `ptracker_init` on every reference channel. */
    constructor (channels: nat, rev: bool, numAvgs: int)
      ensures Valid() && fresh(s) && reverse == rev && s.Length == channels
      ensures Initial(View()) && tagRef == -1
      ensures forall i {:trigger s[i]} :: 0 <= i < channels ==> s[i].nAvg == numAvgs
    {
      reverse, tagRef := rev, -1;
      s := new State[channels](_ => State(false, numAvgs, 0, 0, 0, 0, false));
    }

    ghost predicate Valid()
      reads this, s
    {
      forall i {:trigger s[i]} :: 0 <= i < s.Length ==> s[i].Valid()
    }

    ghost function View(): (b: Bank)
      reads this, s
      ensures |b.channels| == s.Length
    {
      Bank(reverse, tagRef, Channels(s[..]))
    }

    /** `ptracker_start` */
    method StartTracker(id: nat)
      requires Valid() && id < s.Length
      modifies s
      ensures Valid() && View() == Step(old(View()), Start(id))
    {
      var now := s[id].(preserveSign := 0, enabled := true, ready := false, acc := 0, avgCount := 0);
      ChannelsUpdated(s[..], id, now);
      s[id] := now;
      assert s[..] == old(s[..])[id := now];
    }

    /** `spll_set_ptracker_average_samples` */
    method SetAverage(id: nat, n: int)
      requires Valid() && id < s.Length
      modifies s
      ensures Valid() && View() == Step(old(View()), Average(id, n))
    {
      var now := s[id].(preserveSign := 0, ready := false, acc := 0, avgCount := 0, nAvg := n);
      ChannelsUpdated(s[..], id, now);
      s[id] := now;
      assert s[..] == old(s[..])[id := now];
    }

    /** `ptrackers_update`, called for the reference channels and the main one only. */
    method Update(tag: int, source: nat)
      requires Valid()
      modifies this`tagRef, s
      ensures Valid() && View() == Step(old(View()), Tag(tag, source))
    {
      if source > s.Length { return; }
      if source == s.Length {
        tagRef := tag;
        return;
      }
      if !s[source].enabled { return; }
      Accumulate(source, (if reverse then tag - tagRef else tagRef - tag) % FULL);
    }

    method Accumulate(source: nat, delta: int)
      requires Valid() && source < s.Length && 0 <= delta < FULL
      modifies s
      ensures Valid()
      ensures var c := old(View()).channels[source];
              var sampled := c.(tracker := Sample(c.tracker, c.nAvg, delta));
              View() == old(View()).(channels := old(View()).channels[source := sampled])
    {
      var index := delta / QUARTER;
      var was := s[source];
      var now := was.(avgCount := was.avgCount + 1);
      if was.avgCount == 0 {
        now := now.(preserveSign := index * 4, acc := delta);
      } else {
        now := now.(acc := was.acc + delta + AdjTab(index + was.preserveSign));
        if now.avgCount == now.nAvg {
          now := now.(phaseVal := Truncated(now.acc, now.nAvg), ready := true, acc := 0, avgCount := 0);
        }
      }
      ChannelsUpdated(s[..], source, now);
      s[source] := now;
      assert s[..] == old(s[..])[source := now];
    }
  }
}
