/** The lock detector of the SoftPLL (softpll/spll_common.c). */
module LockDetector {

  function Abs(x: int): int { if x < 0 then -x else x }

  /** A detector may be set to a `delockSamples` at or above `lockSamples`, as that of the main PLL's
      frequency branch is. */
  datatype Limits = Limits(lockSamples: int, delockSamples: int, threshold: int) {
    predicate Valid() {
      0 < lockSamples && 0 <= delockSamples
    }

    /** How many bad samples it takes to unlock, where that is possible. */
    function Patience(): int {
      if delockSamples < lockSamples then lockSamples - delockSamples else 1
    }

    predicate InRange(y: int): (b: bool)
      ensures b <==> -threshold <= y <= threshold
    {
      Abs(y) <= threshold
    }
  }

  datatype Ld = Ld(count: int, locked: bool, changed: bool)

  const INITIAL: Ld := Ld(0, false, false)

  function Update(l: Limits, ld: Ld, y: int): Ld {
    if l.InRange(y) then
      var c := if ld.count < l.lockSamples then ld.count + 1 else ld.count;
      if c == l.lockSamples then Ld(c, true, !ld.locked) else Ld(c, ld.locked, false)
    else
      var c := if ld.count > l.delockSamples then ld.count - 1 else ld.count;
      if c == l.delockSamples && ld.locked then Ld(0, false, true) else Ld(c, ld.locked, false)
  }

  /** The detector after the first `n` samples. */
  function After(l: Limits, ys: seq<int>, n: nat): Ld
    requires n <= |ys|
  {
    if n == 0 then INITIAL else Update(l, After(l, ys, n - 1), ys[n-1])
  }

  predicate JustLocked(l: Limits, ys: seq<int>, n: nat)
    requires n <= |ys|
  {
    n > 0 && After(l, ys, n).locked && !After(l, ys, n - 1).locked
  }

  predicate JustUnlocked(l: Limits, ys: seq<int>, n: nat)
    requires n <= |ys|
  {
    n > 0 && !After(l, ys, n).locked && After(l, ys, n - 1).locked
  }

  /** In-range samples among the first `n`, counted from the start or the last loss of lock. */
  function GoodSince(l: Limits, ys: seq<int>, n: nat): nat
    requires n <= |ys|
  {
    if n == 0 || JustUnlocked(l, ys, n) then 0
    else GoodSince(l, ys, n - 1) + if l.InRange(ys[n-1]) then 1 else 0
  }

  /** Out-of-range samples among the first `n`, counted from the last time lock was gained. */
  function BadSince(l: Limits, ys: seq<int>, n: nat): nat
    requires n <= |ys|
  {
    if n == 0 || JustLocked(l, ys, n) then 0
    else BadSince(l, ys, n - 1) + if l.InRange(ys[n-1]) then 0 else 1
  }

  lemma {:induction false} CountIsEvidence(l: Limits, ys: seq<int>, n: nat)
    requires l.Valid() && n <= |ys|
    ensures var d := After(l, ys, n);
            && 0 <= d.count <= l.lockSamples
            && (!d.locked ==> d.count < l.lockSamples && d.count <= GoodSince(l, ys, n))
            && (d.locked ==> (l.delockSamples < d.count || l.lockSamples == d.count <= l.delockSamples)
                             && l.lockSamples - d.count <= BadSince(l, ys, n))
  {
    if n > 0 {
      CountIsEvidence(l, ys, n - 1);
    }
  }

  /** Over every run of samples: lock takes `lockSamples` good samples since the start or the last
      loss of lock, losing it takes `Patience` bad ones since it was gained and does not happen with
      `delockSamples` above `lockSamples`, and the change flag is up exactly at these transitions. */
  lemma Hysteresis(l: Limits, ys: seq<int>, n: nat)
    requires l.Valid() && 0 < n <= |ys|
    ensures JustLocked(l, ys, n) ==> GoodSince(l, ys, n) >= l.lockSamples
    ensures JustUnlocked(l, ys, n) ==> BadSince(l, ys, n) >= l.Patience() && l.delockSamples <= l.lockSamples
    ensures After(l, ys, n).changed <==> After(l, ys, n).locked != After(l, ys, n - 1).locked
  {
    CountIsEvidence(l, ys, n - 1);
    CountIsEvidence(l, ys, n);
  }

  /** Enough good samples in a row lock the detector, and enough bad ones unlock it, iff
      `delockSamples` is not above `lockSamples`. */
  lemma SteadyInputSettles(l: Limits, ys: seq<int>, n: nat, k: nat)
    requires l.Valid() && k <= n <= |ys|
    ensures (forall i :: n - k <= i < n ==> l.InRange(ys[i])) && k >= l.lockSamples ==> After(l, ys, n).locked
    ensures (forall i :: n - k <= i < n ==> !l.InRange(ys[i])) && k >= l.Patience() ==>
              (After(l, ys, n).locked <==> l.delockSamples > l.lockSamples && After(l, ys, n - k).locked)
  {
    CountIsEvidence(l, ys, n);
    if forall i :: n - k <= i < n ==> l.InRange(ys[i]) { GoodRunCounts(l, ys, n, k); }
    if forall i :: n - k <= i < n ==> !l.InRange(ys[i]) {
      BadRunCounts(l, ys, n, k);
      if l.delockSamples > l.lockSamples && After(l, ys, n - k).locked { NeverUnlocks(l, ys, n - k, n); }
    }
  }

  /** With `delockSamples` above `lockSamples` a lock is for ever. */
  lemma {:induction false} NeverUnlocks(l: Limits, ys: seq<int>, m: nat, n: nat)
    requires l.Valid() && l.delockSamples > l.lockSamples && m <= n <= |ys| && After(l, ys, m).locked
    ensures After(l, ys, n).locked
  {
    if m < n {
      NeverUnlocks(l, ys, m, n - 1);
      CountIsEvidence(l, ys, n - 1);
    }
  }

  /** From a reset, bad samples leave no trace and good ones behind them count up to the lock, which
      is flagged with the `lockSamples`-th of them. */
  lemma {:induction false} PullIn(l: Limits, ys: seq<int>, b: nat, n: nat)
    requires l.Valid() && n <= |ys|
    requires forall i :: 0 <= i < n ==> (l.InRange(ys[i]) <==> i >= b)
    ensures After(l, ys, n) == if n < b then INITIAL
                               else if n - b < l.lockSamples then Ld(n - b, false, false)
                               else Ld(l.lockSamples, true, n - b == l.lockSamples)
  {
    if n > 0 { PullIn(l, ys, b, n - 1); }
  }

  lemma {:induction false} GoodRunCounts(l: Limits, ys: seq<int>, n: nat, k: nat)
    requires l.Valid() && k <= n <= |ys| && forall i :: n - k <= i < n ==> l.InRange(ys[i])
    ensures var d := After(l, ys, n); k <= d.count || d.locked
    decreases k
  {
    CountIsEvidence(l, ys, n);
    if k > 0 {
      GoodRunCounts(l, ys, n - 1, k - 1);
      CountIsEvidence(l, ys, n - 1);
    }
  }

  lemma {:induction false} BadRunCounts(l: Limits, ys: seq<int>, n: nat, k: nat)
    requires l.Valid() && k <= n <= |ys| && forall i :: n - k <= i < n ==> !l.InRange(ys[i])
    ensures var d := After(l, ys, n);
            d.locked && k > 0 ==> l.delockSamples != l.lockSamples && After(l, ys, n - k).locked
                                  && (l.delockSamples < l.lockSamples ==> d.count <= l.lockSamples - k)
    decreases k
  {
    CountIsEvidence(l, ys, n);
    if k > 0 {
      BadRunCounts(l, ys, n - 1, k - 1);
      CountIsEvidence(l, ys, n - 1);
    }
  }

  // ---------------------------------------------------------------------------------------------
  // What the counter holds
  // ---------------------------------------------------------------------------------------------

  /** Good samples less bad ones, from sample `j` up to `n`. */
  function Net(l: Limits, ys: seq<int>, j: nat, n: nat): int
    requires j <= n <= |ys|
  {
    if j == n then 0 else Net(l, ys, j, n - 1) + if -l.threshold <= ys[n-1] <= l.threshold then 1 else -1
  }

  function Goods(l: Limits, ys: seq<int>, n: nat): nat
    requires n <= |ys|
  {
    if n == 0 then 0 else Goods(l, ys, n - 1) + if -l.threshold <= ys[n-1] <= l.threshold then 1 else 0
  }

  lemma {:induction false} GoodsGrow(l: Limits, ys: seq<int>, j: nat, n: nat)
    requires j <= n <= |ys|
    ensures Goods(l, ys, j) <= Goods(l, ys, n)
  {
    if j < n { GoodsGrow(l, ys, j, n - 1); }
  }

  /** The count is the best that any stretch of samples up to `n` brings on top of `delockSamples`. */
  ghost predicate IsBest(l: Limits, ys: seq<int>, n: nat, count: int)
    requires n <= |ys|
  {
    && (forall j {:trigger Net(l, ys, j, n)} :: 0 <= j <= n && Goods(l, ys, j) >= l.delockSamples ==>
          l.delockSamples + Net(l, ys, j, n) <= count)
    && (exists j {:trigger Net(l, ys, j, n)} :: 0 <= j <= n && Goods(l, ys, j) >= l.delockSamples
          && l.delockSamples + Net(l, ys, j, n) == count)
  }

  /** Before the first lock the count is exactly: the number of good samples up to `delockSamples` of
      them, and from then on the best net gain over any stretch that ends now. */
  lemma {:induction false} ClimbIsBest(l: Limits, ys: seq<int>, n: nat)
    requires l.Valid() && n <= |ys| && forall m {:trigger After(l, ys, m)} :: 0 <= m <= n ==> !After(l, ys, m).locked
    ensures var c, g := After(l, ys, n).count, Goods(l, ys, n);
            && (g <= l.delockSamples ==> c == g)
            && (g >= l.delockSamples ==> IsBest(l, ys, n, c))
  {
    if n > 0 {
      ClimbIsBest(l, ys, n - 1);
      CountIsEvidence(l, ys, n);
      var before, c := After(l, ys, n - 1).count, After(l, ys, n).count;
      assert !After(l, ys, n - 1).locked;
      if Goods(l, ys, n - 1) >= l.delockSamples {
        BestStep(l, ys, n, before, c);
      } else if Goods(l, ys, n) >= l.delockSamples {
        forall j | 0 <= j <= n && Goods(l, ys, j) >= l.delockSamples ensures j == n {
          if j < n { GoodsGrow(l, ys, j, n - 1); }
        }
        assert Net(l, ys, n, n) == 0;
      }
    } else {
      assert Net(l, ys, 0, 0) == 0;
    }
  }

  lemma BestStep(l: Limits, ys: seq<int>, n: nat, before: int, c: int)
    requires l.Valid() && 0 < n <= |ys| && IsBest(l, ys, n - 1, before)
    requires c == if l.InRange(ys[n-1]) then before + 1 else if before > l.delockSamples then before - 1 else before
    requires Goods(l, ys, n - 1) >= l.delockSamples
    ensures IsBest(l, ys, n, c)
  {
    var d := l.delockSamples;
    assert Net(l, ys, n - 1, n - 1) == 0 && Net(l, ys, n, n) == 0;
    GoodsGrow(l, ys, n - 1, n);
    assert d <= before;
    forall j | 0 <= j <= n && Goods(l, ys, j) >= d ensures d + Net(l, ys, j, n) <= c {
      if j < n { assert d + Net(l, ys, j, n - 1) <= before; }
    }
    if l.InRange(ys[n-1]) || before > d {
      var j :| 0 <= j <= n - 1 && Goods(l, ys, j) >= d && d + Net(l, ys, j, n - 1) == before;
      assert d + Net(l, ys, j, n) == c;
    } else {
      assert d + Net(l, ys, n, n) == c;
    }
  }

  /** While locked since sample `m`, with `delockSamples` below `lockSamples`, the count is `lockSamples`
      less the worst net loss over any stretch since then that ends now. */
  lemma {:induction false} HoldIsWorst(l: Limits, ys: seq<int>, m: nat, n: nat)
    requires l.Valid() && l.delockSamples < l.lockSamples && m <= n <= |ys| && JustLocked(l, ys, m)
    requires forall i {:trigger After(l, ys, i)} :: m <= i <= n ==> After(l, ys, i).locked
    ensures var c := After(l, ys, n).count;
            && (forall j {:trigger Net(l, ys, j, n)} :: m <= j <= n ==> c <= l.lockSamples + Net(l, ys, j, n))
            && (exists j {:trigger Net(l, ys, j, n)} :: m <= j <= n && c == l.lockSamples + Net(l, ys, j, n))
  {
    CountIsEvidence(l, ys, n);
    if n == m {
      assert Net(l, ys, m, m) == 0;
    } else {
      HoldIsWorst(l, ys, m, n - 1);
      CountIsEvidence(l, ys, n - 1);
      assert After(l, ys, n - 1).locked;
      var before, c := After(l, ys, n - 1).count, After(l, ys, n).count;
      assert c == if l.InRange(ys[n-1]) then (if before < l.lockSamples then before + 1 else before) else before - 1;
      WorstStep(l, ys, m, n, before, c);
    }
  }

  lemma WorstStep(l: Limits, ys: seq<int>, m: nat, n: nat, before: int, c: int)
    requires m < n <= |ys| && before <= l.lockSamples
    requires c == if l.InRange(ys[n-1]) then (if before < l.lockSamples then before + 1 else before) else before - 1
    requires forall j {:trigger Net(l, ys, j, n - 1)} :: m <= j <= n - 1 ==> before <= l.lockSamples + Net(l, ys, j, n - 1)
    requires exists j {:trigger Net(l, ys, j, n - 1)} :: m <= j <= n - 1 && before == l.lockSamples + Net(l, ys, j, n - 1)
    ensures forall j {:trigger Net(l, ys, j, n)} :: m <= j <= n ==> c <= l.lockSamples + Net(l, ys, j, n)
    ensures exists j {:trigger Net(l, ys, j, n)} :: m <= j <= n && c == l.lockSamples + Net(l, ys, j, n)
  {
    assert Net(l, ys, n, n) == 0;
    forall j | m <= j <= n ensures c <= l.lockSamples + Net(l, ys, j, n) {
      if j < n { assert before <= l.lockSamples + Net(l, ys, j, n - 1); }
    }
    if l.InRange(ys[n-1]) && before == l.lockSamples {
      assert c == l.lockSamples + Net(l, ys, n, n);
    } else {
      var j :| m <= j <= n - 1 && before == l.lockSamples + Net(l, ys, j, n - 1);
      assert c == l.lockSamples + Net(l, ys, j, n);
    }
  }

  /** `spll_lock_det_t` */
  class LockDet {
    const limits: Limits
    var count: int
    var locked: bool
    var changed: bool

    constructor (l: Limits)
      ensures limits == l && View() == INITIAL
    {
      limits := l;
      count, locked, changed := 0, false, false;
    }

    function View(): Ld
      reads this
    {
      Ld(count, locked, changed)
    }

    method LdInit()
      modifies this
      ensures View() == INITIAL
    {
      locked := false;
      count := 0;
      changed := false;
    }

    /** Returns 1 when locked, 0 when not, -1 when lock has just been lost. */
    method LdUpdate(y: int) returns (ret: int)
      modifies this
      ensures View() == Update(limits, old(View()), y)
      ensures ret == if locked then 1 else if old(locked) then -1 else 0
    {
      changed := false;
      if limits.InRange(y) {
        if count < limits.lockSamples {
          count := count + 1;
        }
        if count == limits.lockSamples {
          changed := !locked;
          locked := true;
          return 1;
        }
      } else {
        if count > limits.delockSamples {
          count := count - 1;
        }
        if count == limits.delockSamples && locked {
          count := 0;
          changed := locked;
          locked := false;
          return -1;
        }
      }
      return if locked then 1 else 0;
    }
  }
}
