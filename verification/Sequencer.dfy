/** The per-tag sequencer of the SoftPLL (softpll/softpll_ng.c), for one output channel.

    Each tag drives the state machine once and then the loops: the helper PLL, and while that is locked
    the main PLL.  What the main PLL makes of a tag, the external reference and the DAC settling time
    are chosen by the environment at each tag. */
module Sequencer {
  import H = HelperPll
  import LD = LockDetector

  datatype Mode = Disabled | GrandMaster | FreeMaster | Slave

  datatype SeqState =
    | SeqDisabled | ClearDacs | WaitClearDacs | StartExt | WaitExt
    | StartHelper | WaitHelper | StartMain | WaitMain | Ready

  /** One tag, with what the environment shows when it is handled; `mainLocked` is what the main PLL
      shows after it, if it is handed the tag.  `extFine` says that the external reference is present
      and aligned, for which the aligner has seen the main PLL locked. */
  datatype Tag = Tag(source: int, value: int, settled: bool, extFine: bool, mainLocked: bool)

  /** `lockBit` is the lock status of the reference channel in OCCR. */
  datatype Pll = Pll(mode: Mode, seqState: SeqState, delockCount: nat, lockBit: bool, mainLocked: bool,
                     helper: H.Helper)

  /** The channels the helper may follow: the uplink a slave locks to, the local reference clock and,
      on hardware that has one, the external reference. */
  datatype Refs = Refs(uplink: int, local: int, external: int, extSupported: bool)

  function HelperRef(mode: Mode, refs: Refs): int {
    if mode == Slave then refs.uplink
    else if mode == GrandMaster && refs.extSupported then refs.external
    else refs.local
  }

  /** What `spll_init` starts from: the helper, and the lock flag the main PLL was left with. */
  datatype Loops = Loops(helper: H.Helper, mainLocked: bool)

  /** `spll_init`; the helper changes its reference, and keeps its state until it is started. */
  function Init(mode: Mode, refs: Refs, loops: Loops): Pll {
    Pll(mode, if mode == Disabled then SeqDisabled else ClearDacs, 0, false, loops.mainLocked,
        loops.helper.(source := HelperRef(mode, refs)))
  }

  /** `external_locked` */
  predicate ExtLocked(p: Pll, t: Tag) {
    p.helper.ld.locked && p.mainLocked && t.extFine
  }

  predicate LosesLock(p: Pll, t: Tag) {
    || (p.mode == GrandMaster && !ExtLocked(p, t))
    || !p.helper.ld.locked
    || (p.mode == Slave && !p.mainLocked)
  }

  /** `sequencing_fsm` */
  function Fsm(c: H.Config, p: Pll, t: Tag): Pll {
    match p.seqState
    case SeqDisabled => p
    case ClearDacs => p.(seqState := WaitClearDacs)
    case WaitClearDacs =>
      if !t.settled then p else p.(seqState := if p.mode == GrandMaster then StartExt else StartHelper)
    case StartExt => p.(seqState := WaitExt, helper := H.Start(c, p.helper.source))
    case WaitExt => if ExtLocked(p, t) then p.(seqState := Ready, lockBit := true) else p
    case StartHelper => p.(seqState := WaitHelper, helper := H.Start(c, p.helper.source))
    case WaitHelper =>
      if p.helper.ld.locked && p.helper.ld.changed then
        if p.mode == Slave then p.(seqState := StartMain) else p.(seqState := Ready, lockBit := true)
      else p
    case StartMain => p.(seqState := WaitMain, mainLocked := false)
    case WaitMain => if p.mainLocked then p.(seqState := Ready, lockBit := true) else p
    case Ready =>
      if LosesLock(p, t) then p.(delockCount := p.delockCount + 1, seqState := ClearDacs, lockBit := false) else p
  }

  /** `update_loops` */
  function Loop(c: H.Config, p: Pll, t: Tag): Pll
    requires c.Valid()
  {
    var helper := H.Update(c, p.helper, t.value, t.source);
    p.(helper := helper, mainLocked := if helper.ld.locked then t.mainLocked else p.mainLocked)
  }

  /** One tag: the state machine, then the loops. */
  function Step(c: H.Config, p: Pll, t: Tag): Pll
    requires c.Valid()
  {
    Loop(c, Fsm(c, p, t), t)
  }

  /** The SoftPLL after the first `n` tags since `spll_init`. */
  function After(c: H.Config, p: Pll, tags: seq<Tag>, n: nat): Pll
    requires c.Valid() && n <= |tags|
  {
    if n == 0 then p else Step(c, After(c, p, tags, n - 1), tags[n-1])
  }

  /** The states of a run, from the first to the last. */
  function Trace(c: H.Config, p: Pll, tags: seq<Tag>): (ps: seq<Pll>)
    requires c.Valid()
    ensures |ps| == |tags| + 1
  {
    seq(|tags| + 1, i requires 0 <= i <= |tags| => After(c, p, tags, i))
  }

  /** How often the ready state was left up to state `n`. */
  function Exits(ps: seq<Pll>, n: nat): nat
    requires n < |ps|
  {
    if n == 0 then 0 else Exits(ps, n - 1) + if Leaves(ps[n-1], ps[n]) then 1 else 0
  }

  predicate Leaves(p: Pll, q: Pll) {
    p.seqState == Ready && q.seqState != Ready
  }

  /** What holds after each tag. */
  predicate Sound(p: Pll) {
    && (p.lockBit <==> p.seqState == Ready)
    && (p.seqState == WaitHelper ==> (p.helper.ld.locked ==> p.helper.ld.changed))
    && (p.seqState == WaitMain ==> (p.mainLocked ==> p.helper.ld.locked))
    && (p.seqState in {StartExt, WaitExt} ==> p.mode == GrandMaster)
    && (p.seqState in {StartHelper, WaitHelper} ==> p.mode in {FreeMaster, Slave})
    && (p.seqState in {StartMain, WaitMain} ==> p.mode == Slave)
    && (p.seqState == SeqDisabled <==> p.mode == Disabled)
  }

  /** What one tag keeps and counts. */
  predicate Moves(p: Pll, q: Pll) {
    Sound(q) && q.mode == p.mode && q.delockCount == p.delockCount + if Leaves(p, q) then 1 else 0
  }

  lemma StepKeepsSound(c: H.Config, p: Pll, t: Tag)
    requires c.Valid() && Sound(p)
    ensures Moves(p, Step(c, p, t))
  {
  }

  lemma {:induction false} RunMoves(c: H.Config, p: Pll, tags: seq<Tag>, n: nat)
    requires c.Valid() && n < |tags| && Sound(p)
    ensures Sound(After(c, p, tags, n)) && Moves(After(c, p, tags, n), After(c, p, tags, n + 1))
  {
    if n > 0 { RunMoves(c, p, tags, n - 1); }
    StepKeepsSound(c, After(c, p, tags, n), tags[n]);
  }

  ghost predicate AllMove(ps: seq<Pll>) {
    forall i {:trigger ps[i]} :: 0 <= i < |ps| - 1 ==> Moves(ps[i], ps[i+1])
  }

  lemma TraceMoves(c: H.Config, p: Pll, tags: seq<Tag>)
    requires c.Valid() && Sound(p)
    ensures AllMove(Trace(c, p, tags))
  {
    var ps := Trace(c, p, tags);
    forall i {:trigger ps[i]} | 0 <= i < |ps| - 1 ensures Moves(ps[i], ps[i+1]) {
      RunMoves(c, p, tags, i);
    }
  }

  lemma {:induction false} MovesCount(ps: seq<Pll>, n: nat)
    requires n < |ps| && Sound(ps[0]) && AllMove(ps)
    ensures Sound(ps[n]) && ps[n].mode == ps[0].mode && ps[n].delockCount == ps[0].delockCount + Exits(ps, n)
  {
    if n > 0 {
      MovesCount(ps, n - 1);
      assert Moves(ps[n-1], ps[n-1+1]);
    }
  }

  /** In every run after `spll_init`, and for every state of the loops it started from: the reference lock
      bit is up exactly in the ready state, the delock count is the number of times the ready state
      was left, a lock gained while waiting for the helper is still flagged, and one gained while
      waiting for the main PLL stands on a locked helper. */
  lemma RunIsSound(c: H.Config, mode: Mode, refs: Refs, loops: Loops, tags: seq<Tag>, n: nat)
    requires c.Valid() && n <= |tags|
    ensures var p := After(c, Init(mode, refs, loops), tags, n);
            Sound(p) && p.mode == mode && p.delockCount == Exits(Trace(c, Init(mode, refs, loops), tags), n)
  {
    var p := Init(mode, refs, loops);
    TraceMoves(c, p, tags);
    MovesCount(Trace(c, p, tags), n);
    assert Trace(c, p, tags)[0] == p;
  }

  /** No lock edge of the helper is lost: the tag after the one that locked it leaves the waiting
      state, for the main PLL in slave mode and for ready otherwise. */
  lemma HelperLockIsSeen(c: H.Config, mode: Mode, refs: Refs, loops: Loops, tags: seq<Tag>, n: nat)
    requires c.Valid() && n < |tags|
    ensures var p, q := After(c, Init(mode, refs, loops), tags, n), After(c, Init(mode, refs, loops), tags, n + 1);
            p.seqState == WaitHelper ==>
              (q.seqState != WaitHelper <==> p.helper.ld.locked)
              && (p.helper.ld.locked ==> q.seqState == if mode == Slave then StartMain else Ready)
  {
    RunIsSound(c, mode, refs, loops, tags, n);
  }

  /** The ready state is entered only with all the locks its mode needs, the helper's in each of them:
      what was seen then would not throw it out again. */
  lemma ReadyIsEarned(c: H.Config, mode: Mode, refs: Refs, loops: Loops, tags: seq<Tag>, n: nat)
    requires c.Valid() && n < |tags|
    ensures var p, q := After(c, Init(mode, refs, loops), tags, n), After(c, Init(mode, refs, loops), tags, n + 1);
            p.seqState != Ready && q.seqState == Ready ==>
              && p.helper.ld.locked && !LosesLock(p, tags[n])
              && (mode == GrandMaster ==> ExtLocked(p, tags[n]))
              && (mode == Slave ==> p.mainLocked)
  {
    RunIsSound(c, mode, refs, loops, tags, n);
  }

  /** The ready state is left with the next tag iff a lock its mode needs is gone: the helper's in each
      mode, the main PLL's for a slave, main PLL or external reference for a grandmaster.  The exit
      clears the lock bit, counts, and starts all over. */
  lemma ReadyIsLeftIff(c: H.Config, mode: Mode, refs: Refs, loops: Loops, tags: seq<Tag>, n: nat)
    requires c.Valid() && n < |tags|
    ensures var p, q := After(c, Init(mode, refs, loops), tags, n), After(c, Init(mode, refs, loops), tags, n + 1);
            p.seqState == Ready ==>
              && (q.seqState != Ready <==>
                    || !p.helper.ld.locked
                    || (mode == Slave && !p.mainLocked)
                    || (mode == GrandMaster && !(p.mainLocked && tags[n].extFine)))
              && (q.seqState != Ready ==> q.seqState == ClearDacs && !q.lockBit && q.delockCount == p.delockCount + 1)
              && (q.seqState == Ready ==> q.lockBit && q.delockCount == p.delockCount)
  {
    RunIsSound(c, mode, refs, loops, tags, n);
  }

  /** What the loops do with a tag: the helper is started afresh in its two start states and then handed
      the tag; the main PLL is reset in its own start state and handed the tag while the helper is locked. */
  lemma LoopsByState(c: H.Config, mode: Mode, refs: Refs, loops: Loops, tags: seq<Tag>, n: nat)
    requires c.Valid() && n < |tags|
    ensures var p, q := After(c, Init(mode, refs, loops), tags, n), After(c, Init(mode, refs, loops), tags, n + 1);
            var helper := if p.seqState in {StartExt, StartHelper} then H.Start(c, p.helper.source) else p.helper;
            && q.helper == H.Update(c, helper, tags[n].value, tags[n].source)
            && q.mainLocked == if q.helper.ld.locked then tags[n].mainLocked else p.mainLocked && p.seqState != StartMain
  {
  }

  // ---------------------------------------------------------------------------------------------
  // How long a startup takes
  // ---------------------------------------------------------------------------------------------

  /** The tags from `from` on that come from `source`, up to `n`. */
  function Heard(source: int, tags: seq<Tag>, from: nat, n: nat): (h: nat)
    requires from <= n <= |tags|
    ensures h <= n - from
  {
    if n == from then 0 else Heard(source, tags, from, n - 1) + if tags[n-1].source == source then 1 else 0
  }

  /** The helper, started with tag `from`, after the first `n` tags. */
  function HelperRun(c: H.Config, source: int, tags: seq<Tag>, from: nat, n: nat): (h: H.Helper)
    requires c.Valid() && from <= n <= |tags|
    ensures h.source == source
  {
    if n == from then H.Start(c, source)
    else H.Update(c, HelperRun(c, source, tags, from, n - 1), tags[n-1].value, tags[n-1].source)
  }

  /** After how many tags things have happened: the DACs settled, the helper locked, the main PLL
      locked, the external reference aligned. */
  datatype Times = Times(settle: nat, lock: nat, main: nat, ext: nat)

  /** Whether the lock of the main PLL matters after `n` tags: a slave waits for it once it has started
      it, a grandmaster once helper and external reference are there. */
  predicate MainMatters(mode: Mode, w: Times, n: nat) {
    (mode == Slave && n >= w.lock + 2) || (mode == GrandMaster && n >= w.lock && n >= w.ext)
  }

  /** What the tags show agrees with the times; they may come from any channel. */
  ghost predicate Shown(mode: Mode, tags: seq<Tag>, w: Times) {
    && (forall i {:trigger tags[i]} :: 1 <= i < w.settle && i < |tags| ==> (tags[i].settled <==> i == w.settle - 1))
    && (forall i {:trigger tags[i]} :: 0 <= i < |tags| ==>
          && (tags[i].extFine <==> i >= w.ext)
          && (MainMatters(mode, w, i + 1) ==> (tags[i].mainLocked <==> i + 1 >= w.main)))
  }

  /** The helper, started with tag `from`, is locked exactly from tag `lock` on. */
  ghost predicate LocksAt(c: H.Config, source: int, tags: seq<Tag>, from: nat, lock: nat)
    requires c.Valid()
  {
    forall n {:trigger HelperRun(c, source, tags, from, n)} :: from <= n <= |tags| ==>
      (HelperRun(c, source, tags, from, n).ld.locked <==> n >= lock)
  }

  ghost predicate Timely(c: H.Config, mode: Mode, source: int, tags: seq<Tag>, w: Times)
    requires c.Valid()
  {
    2 <= w.settle < w.lock && Shown(mode, tags, w) && LocksAt(c, source, tags, w.settle, w.lock)
  }

  function Max(a: int, b: int): int { if a < b then b else a }

  /** The number of tags after which a mode is ready. */
  function ReadyTime(mode: Mode, w: Times): int {
    match mode
    case Slave => Max(w.lock + 2, w.main) + 1
    case GrandMaster => Max(w.lock, Max(w.main, w.ext)) + 1
    case _ => w.lock + 1
  }

  /** Where the startup is after `n` tags. */
  function Due(mode: Mode, w: Times, n: nat): SeqState {
    if n == 0 then ClearDacs
    else if n < w.settle then WaitClearDacs
    else if n == w.settle then (if mode == GrandMaster then StartExt else StartHelper)
    else if n >= ReadyTime(mode, w) then Ready
    else if mode == GrandMaster then WaitExt
    else if n <= w.lock then WaitHelper
    else if n == w.lock + 1 then StartMain
    else WaitMain
  }

  /** After `n` tags the startup is where it should be, and so are the loops. */
  ghost predicate OnTime(c: H.Config, mode: Mode, source: int, tags: seq<Tag>, w: Times, p: Pll, n: nat)
    requires c.Valid() && n <= |tags|
  {
    && p.mode == mode && p.seqState == Due(mode, w, n) && p.helper.source == source
    && (n > w.settle ==> p.helper == HelperRun(c, source, tags, w.settle, n))
    && (MainMatters(mode, w, n) && n > w.settle ==> (p.mainLocked <==> n >= w.main))
  }

  lemma StartupFsm(c: H.Config, p: Pll, t: Tag, w: Times, n: nat)
    requires c.Valid() && p.mode != Disabled && Sound(p) && 2 <= w.settle < w.lock
    requires p.seqState == Due(p.mode, w, n)
    requires 1 <= n < w.settle ==> (t.settled <==> n == w.settle - 1)
    requires n > w.settle ==> (p.helper.ld.locked <==> n >= w.lock)
    requires MainMatters(p.mode, w, n) ==> (p.mainLocked <==> n >= w.main)
    requires t.extFine <==> n >= w.ext
    ensures var q := Fsm(c, p, t);
            && q.mode == p.mode && q.seqState == Due(p.mode, w, n + 1)
            && q.helper == if n == w.settle then H.Start(c, p.helper.source) else p.helper
  {
  }

  lemma StartupStep(c: H.Config, mode: Mode, source: int, tags: seq<Tag>, w: Times, p: Pll, q: Pll, n: nat)
    requires c.Valid() && mode != Disabled && n < |tags| && Timely(c, mode, source, tags, w)
    requires OnTime(c, mode, source, tags, w, p, n) && Sound(p) && q == Step(c, p, tags[n])
    ensures OnTime(c, mode, source, tags, w, q, n + 1) && Sound(q)
  {
    if n >= w.settle {
      assert HelperRun(c, source, tags, w.settle, n).ld.locked <==> n >= w.lock;
      assert HelperRun(c, source, tags, w.settle, n + 1).ld.locked <==> n + 1 >= w.lock;
    }
    StartupFsm(c, p, tags[n], w, n);
    StepKeepsSound(c, p, tags[n]);
  }

  lemma {:induction false} OnTimeFrom(c: H.Config, p: Pll, tags: seq<Tag>, w: Times, n: nat)
    requires c.Valid() && n <= |tags| && Timely(c, p.mode, p.helper.source, tags, w)
    requires p.mode != Disabled && p.seqState == ClearDacs && Sound(p)
    ensures OnTime(c, p.mode, p.helper.source, tags, w, After(c, p, tags, n), n) && Sound(After(c, p, tags, n))
  {
    if n > 0 {
      OnTimeFrom(c, p, tags, w, n - 1);
      StartupStep(c, p.mode, p.helper.source, tags, w, After(c, p, tags, n - 1), After(c, p, tags, n), n - 1);
    }
  }

  /** After every tag of a startup the sequencer is in the state due by then: ready exactly from
      `ReadyTime` on, whichever mode, and however the tags of the channels are mixed. */
  lemma StartupTime(c: H.Config, mode: Mode, refs: Refs, loops: Loops, tags: seq<Tag>, w: Times, n: nat)
    requires c.Valid() && mode != Disabled && n <= |tags| && Timely(c, mode, HelperRef(mode, refs), tags, w)
    ensures OnTime(c, mode, HelperRef(mode, refs), tags, w, After(c, Init(mode, refs, loops), tags, n), n)
  {
    OnTimeFrom(c, Init(mode, refs, loops), tags, w, n);
  }

  /** From tag `from` on the reference ticks at the true times `us`. */
  ghost predicate Ticks(source: int, tags: seq<Tag>, from: nat, us: seq<int>)
    requires from <= |tags|
  {
    && Heard(source, tags, from, |tags|) <= |us| && H.GoodTags(us)
    && forall i {:trigger tags[i]} :: from <= i < |tags| && tags[i].source == source ==>
         Heard(source, tags, from, i) < |us| && tags[i].value == us[Heard(source, tags, from, i)] % H.TAG_RANGE
  }

  lemma {:induction false} HeardGrows(source: int, tags: seq<Tag>, from: nat, m: nat, n: nat)
    requires from <= m <= n <= |tags|
    ensures Heard(source, tags, from, m) <= Heard(source, tags, from, n)
  {
    if m < n { HeardGrows(source, tags, from, m, n - 1); }
  }

  /** Tags of other channels leave the helper alone. */
  lemma {:induction false} HelperHears(c: H.Config, source: int, tags: seq<Tag>, from: nat, us: seq<int>, n: nat)
    requires c.Valid() && from <= n <= |tags| && Ticks(source, tags, from, us)
    ensures Heard(source, tags, from, n) <= |us|
    ensures HelperRun(c, source, tags, from, n) == H.After(c, source, us, Heard(source, tags, from, n))
  {
    HeardGrows(source, tags, from, n, |tags|);
    if n > from { HelperHears(c, source, tags, from, us, n - 1); }
  }

  /** The errors of the reference are out of range until its tag `k` and in range from there on. */
  ghost predicate Pulled(c: H.Config, us: seq<int>, k: nat) {
    forall i {:trigger H.TrueError(us, i)} :: 0 < i < |us| ==> (c.limits.InRange(H.TrueError(us, i)) <==> i >= k)
  }

  lemma LockedWhenHeard(c: H.Config, source: int, tags: seq<Tag>, from: nat, us: seq<int>, k: nat, n: nat)
    requires c.Valid() && c.limits.threshold < H.CLAMP && from <= n <= |tags|
    requires Ticks(source, tags, from, us) && 1 <= k && Pulled(c, us, k)
    ensures HelperRun(c, source, tags, from, n).ld.locked
       <==> Heard(source, tags, from, n) >= k + c.limits.lockSamples
  {
    HelperHears(c, source, tags, from, us, n);
    PulledLocks(c, source, us, k, Heard(source, tags, from, n));
  }

  lemma PulledLocks(c: H.Config, source: int, us: seq<int>, k: nat, n: nat)
    requires c.Valid() && c.limits.threshold < H.CLAMP && H.GoodTags(us) && 1 <= k && Pulled(c, us, k) && n <= |us|
    ensures H.After(c, source, us, n).ld.locked <==> n >= k + c.limits.lockSamples
  {
    H.HelperPullsIn(c, source, us, k, n);
  }

  lemma HeardSince(source: int, tags: seq<Tag>, from: nat, lock: nat, n: nat)
    requires from < lock <= |tags| && tags[lock-1].source == source && from <= n <= |tags|
    ensures Heard(source, tags, from, n) >= Heard(source, tags, from, lock) <==> n >= lock
  {
    if n >= lock { HeardGrows(source, tags, from, lock, n); } else { HeardGrows(source, tags, from, n, lock - 1); }
  }

  /** The helper's lock in a mixed run: with the tag that is its `k + lockSamples`-th own one. */
  lemma LockTime(c: H.Config, source: int, tags: seq<Tag>, from: nat, us: seq<int>, k: nat, lock: nat)
    requires c.Valid() && c.limits.threshold < H.CLAMP && from < lock <= |tags|
    requires Ticks(source, tags, from, us) && 1 <= k && Pulled(c, us, k)
    requires tags[lock-1].source == source && Heard(source, tags, from, lock) == k + c.limits.lockSamples
    ensures LocksAt(c, source, tags, from, lock)
  {
    forall n {:trigger HelperRun(c, source, tags, from, n)} | from <= n <= |tags|
      ensures HelperRun(c, source, tags, from, n).ld.locked <==> n >= lock
    {
      LockedWhenHeard(c, source, tags, from, us, k, n);
      HeardSince(source, tags, from, lock, n);
    }
  }

  /** The startup on a reference that the helper pulls in: the lock time of `StartupTime` is the tag
      with which the reference has been heard `k + lockSamples` times since the DACs settled. */
  lemma StartupAfterPullIn(c: H.Config, mode: Mode, refs: Refs, loops: Loops, tags: seq<Tag>, us: seq<int>, k: nat,
                           w: Times, n: nat)
    requires c.Valid() && c.limits.threshold < H.CLAMP && mode != Disabled && n <= |tags|
    requires 2 <= w.settle < w.lock <= |tags| && Shown(mode, tags, w)
    requires Ticks(HelperRef(mode, refs), tags, w.settle, us) && 1 <= k && Pulled(c, us, k)
    requires tags[w.lock-1].source == HelperRef(mode, refs)
    requires Heard(HelperRef(mode, refs), tags, w.settle, w.lock) == k + c.limits.lockSamples
    ensures After(c, Init(mode, refs, loops), tags, n).seqState == Due(mode, w, n)
  {
    LockTime(c, HelperRef(mode, refs), tags, w.settle, us, k, w.lock);
    StartupTime(c, mode, refs, loops, tags, w, n);
  }

  // ---------------------------------------------------------------------------------------------
  // The code
  // ---------------------------------------------------------------------------------------------

  /** `struct softpll_state` and the lock status register. */
  class SoftPll {
    const helper: H.HelperState
    var mode: Mode
    var seqState: SeqState
    var delockCount: nat
    var lockBit: bool
    var mainLocked: bool

    ghost predicate Valid()
      reads helper, helper.pi
    {
      helper.Valid()
    }

    constructor (c: H.Config)
      requires c.Valid()
      ensures Valid() && helper.config == c && seqState == SeqDisabled
    {
      helper := new H.HelperState(c, 0);
      mode, seqState, delockCount, lockBit, mainLocked := Disabled, SeqDisabled, 0, false, false;
    }

    function View(): Pll
      reads this, helper, helper.pi, helper.ld
    {
      Pll(mode, seqState, delockCount, lockBit, mainLocked, helper.View())
    }

    method SpllInit(m: Mode, refs: Refs)
      requires Valid()
      modifies this, helper
      ensures Valid() && View() == Init(m, refs, Loops(old(helper.View()), old(mainLocked)))
      ensures m == Slave ==> helper.source == refs.uplink
      ensures m == GrandMaster && refs.extSupported ==> helper.source == refs.external
      ensures m == FreeMaster || (m == GrandMaster && !refs.extSupported) ==> helper.source == refs.local
      ensures delockCount == 0 && !lockBit && (seqState == SeqDisabled <==> m == Disabled)
    {
      mode := m;
      delockCount := 0;
      lockBit := false;
      seqState := if m == Disabled then SeqDisabled else ClearDacs;
      helper.HelperInit(if m == Slave then refs.uplink else refs.local);
      if m == GrandMaster && refs.extSupported {
        helper.HelperInit(refs.external);
      }
    }

    method SequencingFsm(t: Tag)
      requires Valid()
      modifies this, helper, helper.pi, helper.ld
      ensures Valid() && View() == Fsm(helper.config, old(View()), t)
    {
      match seqState
      case SeqDisabled =>
      case ClearDacs =>
        seqState := WaitClearDacs;
      case WaitClearDacs =>
        if t.settled {
          seqState := if mode == GrandMaster then StartExt else StartHelper;
        }
      case StartExt =>
        helper.HelperStart();
        seqState := WaitExt;
      case WaitExt =>
        if helper.ld.locked && mainLocked && t.extFine {
          seqState := Ready;
          lockBit := true;
        }
      case StartHelper =>
        helper.HelperStart();
        seqState := WaitHelper;
      case WaitHelper =>
        if helper.ld.locked && helper.ld.changed {
          if mode == Slave {
            seqState := StartMain;
          } else {
            seqState := Ready;
            lockBit := true;
          }
        }
      case StartMain =>
        mainLocked := false;
        seqState := WaitMain;
      case WaitMain =>
        if mainLocked {
          seqState := Ready;
          lockBit := true;
        }
      case Ready =>
        if (mode == GrandMaster && !(helper.ld.locked && mainLocked && t.extFine))
           || !helper.ld.locked
           || (mode == Slave && !mainLocked) {
          delockCount := delockCount + 1;
          seqState := ClearDacs;
          lockBit := false;
        }
    }

    /** The interrupt handler: the state machine and the loops, for all tags in the queue. */
    method IrqEntry(tags: seq<Tag>)
      requires Valid()
      modifies this, helper, helper.pi, helper.ld
      ensures Valid() && View() == After(helper.config, old(View()), tags, |tags|)
    {
      for i := 0 to |tags|
        invariant Valid() && View() == After(helper.config, old(View()), tags, i)
      {
        SequencingFsm(tags[i]);
        helper.HelperUpdate(tags[i].value, tags[i].source);
        if helper.ld.locked {
          mainLocked := tags[i].mainLocked;
        }
      }
    }
  }
}
