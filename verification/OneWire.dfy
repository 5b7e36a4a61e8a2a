/** 1-Wire ROM search over a wired-AND bus (dev/w1.c).

    A `uint64_t` is modelled by its 64 bits, least significant first, so that `rom & mask` with
    `mask == 1 << i` is bit `i`.  The bus is the set of ROMs attached to the wire together with
    the subset that still takes part in the running search. */
module OneWire {

  const ROM_BITS: nat := 64
  const MAX_DEVICES: nat := 8
  /** `select = *rom & mask` is stored in an `int`: only bits 0..31 survive. */
  const SELECT_BITS: nat := 32

  type Word64 = s: seq<bool> | |s| == ROM_BITS witness seq(ROM_BITS, _ => false)

  const ZERO: Word64 := seq(ROM_BITS, _ => false)

  // ---------------------------------------------------------------------------------------------
  // Order of discovery
  // ---------------------------------------------------------------------------------------------

  predicate Agree(a: Word64, b: Word64, n: nat)
    requires n <= ROM_BITS
  {
    forall k :: 0 <= k < n ==> a[k] == b[k]
  }

  /** The two words agree below bit `j` and differ there. */
  predicate SplitAt(a: Word64, b: Word64, j: nat) {
    j < ROM_BITS && Agree(a, b, j) && a[j] != b[j]
  }

  /** Least-significant-bit-first lexicographic order. */
  ghost predicate Before(a: Word64, b: Word64) {
    exists j: nat :: SplitAt(a, b, j) && b[j]
  }

  ghost predicate Listed(s: seq<Word64>, d: Word64) {
    exists i :: 0 <= i < |s| && s[i] == d
  }

  /** `s` lists the devices of `D` once each, in discovery order. */
  ghost predicate IsListing(D: set<Word64>, s: seq<Word64>) {
    && (forall i {:trigger s[i] in D} :: 0 <= i < |s| ==> s[i] in D)
    && (forall d {:trigger Listed(s, d)} :: d in D ==> Listed(s, d))
    && (forall i, k {:trigger Before(s[i], s[k])} :: 0 <= i < k < |s| ==> Before(s[i], s[k]))
  }

  lemma SplitExists(a: Word64, b: Word64, n: nat)
    requires n <= ROM_BITS && !Agree(a, b, n)
    ensures exists j: nat :: j < n && SplitAt(a, b, j)
  {
    if !Agree(a, b, n - 1) {
      SplitExists(a, b, n - 1);
    } else {
      assert SplitAt(a, b, n - 1);
    }
  }

  lemma BeforeAsymmetric(a: Word64, b: Word64)
    requires Before(a, b)
    ensures a != b && !Before(b, a)
  {
    var j: nat :| SplitAt(a, b, j) && b[j];
    forall i: nat | SplitAt(b, a, i) ensures i == j && !a[i] {
      assert !(i < j) && !(j < i);
    }
  }

  // ---------------------------------------------------------------------------------------------
  // One search pass
  // ---------------------------------------------------------------------------------------------

  /** Seen from device `p`, another device of `A` answers differently at bit `i`. */
  ghost predicate Ambiguous(A: set<Word64>, p: Word64, i: nat) {
    i < ROM_BITS && exists e :: e in A && SplitAt(e, p, i)
  }

  /** The answer the master gives on a conflict at bit `i`. */
  predicate Selected(r: Word64, i: nat)
    requires i < ROM_BITS
  {
    i < SELECT_BITS && r[i]
  }

  /** `p` answers as selected at each of its conflicts, so a pass with request `r` isolates it. */
  ghost predicate Isolates(D: set<Word64>, r: Word64, p: Word64) {
    p in D && forall i: nat {:trigger Ambiguous(D, p, i)} :: Ambiguous(D, p, i) ==> p[i] == Selected(r, i)
  }

  lemma IsolatedUnique(D: set<Word64>, r: Word64, p: Word64, q: Word64)
    requires Isolates(D, r, p) && Isolates(D, r, q)
    ensures p == q
  {
    if !Agree(p, q, ROM_BITS) {
      SplitExists(p, q, ROM_BITS);
      var i: nat :| i < ROM_BITS && SplitAt(p, q, i);
      assert SplitAt(q, p, i);
      assert Ambiguous(D, p, i) && Ambiguous(D, q, i);
    }
  }

  /** Among devices that agree below bit `i`, one answers as selected from there on. */
  lemma {:induction false} IsolatedFrom(A: set<Word64>, r: Word64, i: nat) returns (p: Word64)
    requires A != {} && i <= ROM_BITS && forall a, b :: a in A && b in A ==> Agree(a, b, i)
    ensures Isolates(A, r, p)
    decreases ROM_BITS - i
  {
    if i == ROM_BITS {
      p :| p in A;
    } else {
      var B := set a | a in A && a[i] == Selected(r, i);
      if B == {} {
        assert forall a :: a in A ==> a !in B;
        p := IsolatedFrom(A, r, i + 1);
      } else {
        p := IsolatedFrom(B, r, i + 1);
        forall k: nat | Ambiguous(A, p, k) ensures p[k] == Selected(r, k) {
          var e :| e in A && SplitAt(e, p, k);
          if i < k {
            assert e in B;
            assert Ambiguous(B, p, k);
          }
        }
      }
    }
  }

  /** The device isolated by a search pass with request `r`. */
  ghost function Isolated(D: set<Word64>, r: Word64): (p: Word64)
    requires D != {}
    ensures Isolates(D, r, p)
  {
    assert exists p :: Isolates(D, r, p) by {
      var p := IsolatedFrom(D, r, 0);
    }
    var p :| Isolates(D, r, p); p
  }

  /** What the pass leaves in `*rom`: conflicting bits keep the request, the others are or-ed in. */
  ghost function Reported(D: set<Word64>, r: Word64, p: Word64): Word64 {
    seq(ROM_BITS, i requires 0 <= i < ROM_BITS => r[i] || (!Ambiguous(D, p, i) && p[i]))
  }

  /** What the pass leaves in `*cmask`: the conflicts at which it followed 0. */
  ghost function Conflicts(D: set<Word64>, r: Word64, p: Word64): Word64 {
    seq(ROM_BITS, i requires 0 <= i < ROM_BITS => Ambiguous(D, p, i) && !Selected(r, i))
  }

  // ---------------------------------------------------------------------------------------------
  // The whole scan, as a function of the attached devices
  // ---------------------------------------------------------------------------------------------

  predicate HasBit(w: Word64) {
    exists i :: 0 <= i < ROM_BITS && w[i]
  }

  predicate IsHighest(w: Word64, j: nat) {
    j < ROM_BITS && w[j] && forall i :: j < i < ROM_BITS ==> !w[i]
  }

  /** Take the 1-branch at bit `j` of `rom` and start from zero above it. */
  function Resolve(rom: Word64, j: nat): Word64
    requires j < ROM_BITS
  {
    rom[..j] + [true] + seq(ROM_BITS - 1 - j, _ => false)
  }

  ghost function HighestBelow(w: Word64, j: nat): (h: nat)
    requires j < ROM_BITS && HasBit(w) && forall i :: j < i < ROM_BITS ==> !w[i]
    ensures IsHighest(w, h)
  {
    if w[j] then j else HighestBelow(w, j - 1)
  }

  ghost function Highest(w: Word64): (j: nat)
    requires HasBit(w)
    ensures IsHighest(w, j)
  {
    HighestBelow(w, ROM_BITS - 1)
  }

  /** The ROMs still to be recorded after `n` ones, the last of which is `last`. */
  ghost function Rest(D: set<Word64>, n: nat, last: Word64, cmask: Word64): (tail: seq<Word64>)
    requires D != {} && n <= MAX_DEVICES
    ensures n + |tail| <= MAX_DEVICES
    decreases MAX_DEVICES - n
  {
    if n == MAX_DEVICES || !HasBit(cmask) then []
    else
      var r := Resolve(last, Highest(cmask));
      var p := Isolated(D, r);
      [Reported(D, r, p)] + Rest(D, n + 1, Reported(D, r, p), Conflicts(D, r, p))
  }

  /** The ROMs recorded by a scan that starts with `first` in `devs[0].rom`. */
  ghost function Scan(D: set<Word64>, first: Word64): (all: seq<Word64>)
    ensures |all| <= MAX_DEVICES
  {
    if D == {} then []
    else
      var p := Isolated(D, first);
      [Reported(D, first, p)] + Rest(D, 1, Reported(D, first, p), Conflicts(D, first, p))
  }

  // ---------------------------------------------------------------------------------------------
  // The scan enumerates the bus
  // ---------------------------------------------------------------------------------------------

  /** The conflicts on the way to device `p` whose 1-branch is still unexplored. */
  ghost function Pending(D: set<Word64>, p: Word64): Word64 {
    seq(ROM_BITS, i requires 0 <= i < ROM_BITS => Ambiguous(D, p, i) && !p[i])
  }

  lemma NextIsLeast(D: set<Word64>, s: seq<Word64>, k: nat, e: Word64)
    requires IsListing(D, s) && 1 <= k <= |s| && e in D && Before(s[k-1], e)
    ensures k < |s| && (e == s[k] || Before(s[k], e))
  {
    assert Listed(s, e);
    var m :| 0 <= m < |s| && s[m] == e;
    assert m < k - 1 ==> Before(s[m], s[k-1]);
    assert k < m ==> Before(s[k], s[m]);
    BeforeAsymmetric(s[k-1], e);
  }

  /** A pending conflict is there exactly when the listing goes on. */
  lemma PendingMeansMore(D: set<Word64>, s: seq<Word64>, k: nat)
    requires IsListing(D, s) && 1 <= k <= |s|
    ensures HasBit(Pending(D, s[k-1])) <==> k < |s|
  {
    var p := s[k-1];
    if HasBit(Pending(D, p)) {
      var i :| 0 <= i < ROM_BITS && Pending(D, p)[i];
      var e :| e in D && SplitAt(e, p, i);
      assert SplitAt(p, e, i);
      NextIsLeast(D, s, k, e);
    }
    if k < |s| {
      assert Before(s[k-1], s[k]);
      var j: nat :| SplitAt(p, s[k], j) && s[k][j];
      assert s[k] in D && SplitAt(s[k], p, j);
      assert Pending(D, p)[j];
    }
  }

  /** The highest pending conflict is where the next device of the listing branches off. */
  lemma HighestPending(D: set<Word64>, s: seq<Word64>, k: nat, h: nat)
    requires IsListing(D, s) && 1 <= k < |s| && IsHighest(Pending(D, s[k-1]), h)
    ensures SplitAt(s[k-1], s[k], h) && s[k][h]
  {
    var p, t := s[k-1], s[k];
    assert Before(s[k-1], s[k]);
    var j: nat :| SplitAt(p, t, j) && t[j];
    assert s[k] in D && SplitAt(t, p, j);
    assert Pending(D, p)[j];
    var e :| e in D && SplitAt(e, p, h);
    assert SplitAt(p, e, h);
    NextIsLeast(D, s, k, e);
    if e != t {
      var i: nat :| SplitAt(t, e, i) && e[i];
      assert j <= h;
    }
  }

  /** Every bit set in `a` is set in `b`. */
  predicate Covers(b: Word64, a: Word64) {
    forall i :: 0 <= i < ROM_BITS && a[i] ==> b[i]
  }

  /** The first pass, started from zero or from any bits of the first device, isolates that device. */
  lemma FirstPass(D: set<Word64>, s: seq<Word64>, r: Word64)
    requires IsListing(D, s) && s != [] && Covers(s[0], r)
    ensures D != {} && Isolates(D, r, s[0])
    ensures Reported(D, r, s[0]) == s[0] && Conflicts(D, r, s[0]) == Pending(D, s[0])
  {
    var t := s[0];
    assert t in D;
    forall i: nat | Ambiguous(D, t, i) ensures !t[i] {
      var e :| e in D && SplitAt(e, t, i);
      assert Listed(s, e);
      var m :| 0 <= m < |s| && s[m] == e;
      assert m > 0 ==> Before(s[0], s[m]);
      BeforeAsymmetric(t, e);
      assert SplitAt(t, e, i);
    }
  }

  /** At its conflicts, the next device answers as the resolved request selects. */
  lemma NextIsSelected(D: set<Word64>, s: seq<Word64>, k: nat, h: nat, i: nat)
    requires IsListing(D, s) && 1 <= k < |s| && SplitAt(s[k-1], s[k], h) && s[k][h] && h < SELECT_BITS
    requires Ambiguous(D, s[k], i)
    ensures s[k][i] == Selected(Resolve(s[k-1], h), i)
  {
    var t := s[k];
    if h < i {
      var e :| e in D && SplitAt(e, t, i);
      assert SplitAt(s[k-1], e, h);
      NextIsLeast(D, s, k, e);
      BeforeAsymmetric(t, e);
      assert SplitAt(t, e, i);
    }
  }

  /** A pass that resolves a conflict among the low 32 bits isolates the next device. */
  lemma NextPass(D: set<Word64>, s: seq<Word64>, k: nat, h: nat, r: Word64)
    requires IsListing(D, s) && 1 <= k < |s| && SplitAt(s[k-1], s[k], h) && s[k][h] && h < SELECT_BITS
    requires r == Resolve(s[k-1], h)
    ensures D != {} && Isolates(D, r, s[k])
    ensures Reported(D, r, s[k]) == s[k] && Conflicts(D, r, s[k]) == Pending(D, s[k])
  {
    var t := s[k];
    assert t in D;
    forall i: nat | Ambiguous(D, t, i) ensures t[i] == Selected(r, i) {
      NextIsSelected(D, s, k, h, i);
    }
    ResolveBits(s[k-1], t, h);
    assert Reported(D, r, t) == t;
  }

  lemma ResolveBits(p: Word64, t: Word64, h: nat)
    requires SplitAt(p, t, h) && t[h]
    ensures forall i :: 0 <= i < ROM_BITS ==> Resolve(p, h)[i] == (i <= h && t[i])
  {
  }

  lemma Sandwich(a: Word64, b: Word64, c: Word64, n: nat)
    requires Before(a, b) && Before(b, c) && n <= ROM_BITS && Agree(a, c, n)
    ensures Agree(b, c, n)
  {
    var i: nat :| SplitAt(a, b, i) && b[i];
    var j: nat :| SplitAt(b, c, j) && c[j];
  }

  /** A device whose predecessor differs in the low word took 0 at all its conflicts above bit 31. */
  lemma HighConflictsAreZero(D: set<Word64>, s: seq<Word64>, k: nat, i: nat)
    requires IsListing(D, s) && k < |s| && (k == 0 || !Agree(s[k-1], s[k], SELECT_BITS))
    requires SELECT_BITS <= i && Ambiguous(D, s[k], i)
    ensures !s[k][i]
  {
    var e :| e in D && SplitAt(e, s[k], i);
    if s[k][i] {
      assert Before(e, s[k]);
      assert Listed(s, e);
      var m :| 0 <= m < |s| && s[m] == e;
      assert k < m ==> Before(s[k], s[m]);
      BeforeAsymmetric(e, s[k]);
      if m < k - 1 {
        assert Before(s[m], s[k-1]) && Before(s[k-1], s[k]);
        Sandwich(s[m], s[k-1], s[k], SELECT_BITS);
      }
    }
  }

  /** A pass that tries to resolve a conflict above bit 31 isolates the previous device again, and
      records it with the conflicting bit set. */
  lemma StuckPass(D: set<Word64>, s: seq<Word64>, k: nat, h: nat, r: Word64)
    requires IsListing(D, s) && 1 <= k < |s| && IsHighest(Pending(D, s[k-1]), h)
    requires SELECT_BITS <= h && r == Resolve(s[k-1], h)
    requires k == 1 || !Agree(s[k-2], s[k-1], SELECT_BITS)
    ensures D != {} && Isolates(D, r, s[k-1])
    ensures Reported(D, r, s[k-1]) == s[k-1][h := true]
    ensures Conflicts(D, r, s[k-1]) == Pending(D, s[k-1])
    ensures Resolve(s[k-1][h := true], h) == r
  {
    var p := s[k-1];
    assert p in D;
    forall i: nat | Ambiguous(D, p, i) ensures p[i] == Selected(r, i) {
      if SELECT_BITS <= i {
        HighConflictsAreZero(D, s, k - 1, i);
      }
    }
  }

  function Min(a: nat, b: nat): nat { if a < b then a else b }

  predicate SetsBit(a: Word64, b: Word64, h: nat) {
    h < ROM_BITS && b == a[h := true]
  }

  ghost predicate OneBitApart(a: Word64, b: Word64) {
    exists h: nat :: SetsBit(a, b, h)
  }

  /** The conflict between consecutive devices `k-1` and `k` is harmless to a scan: it lies in the
      low word, or it is met only when filling the last slot and the phantom happens to be real. */
  ghost predicate Harmless(s: seq<Word64>, k: nat)
    requires 1 <= k < |s|
  {
    !Agree(s[k-1], s[k], 32) || (k == 7 && OneBitApart(s[k-1], s[k]))
  }

  ghost predicate HarmlessFrom(s: seq<Word64>, k: nat)
    requires 1 <= k
  {
    forall i :: k <= i < Min(|s|, 8) ==> Harmless(s, i)
  }

  lemma SliceHead<T>(s: seq<T>, k: nat, m: nat, t: seq<T>)
    requires k < m <= |s|
    ensures [s[k]] + t == s[k..m] <==> t == s[k+1..m]
  {
    assert s[k..m] == [s[k]] + s[k+1..m];
    assert ([s[k]] + t)[1..] == t;
  }

  lemma RestUnfold(D: set<Word64>, n: nat, last: Word64, cmask: Word64, h: nat, r: Word64, p: Word64)
    requires D != {} && n < MAX_DEVICES && IsHighest(cmask, h)
    requires r == Resolve(last, h) && Isolates(D, r, p)
    ensures Rest(D, n, last, cmask)
         == [Reported(D, r, p)] + Rest(D, n + 1, Reported(D, r, p), Conflicts(D, r, p))
  {
    assert HasBit(cmask) && Highest(cmask) == h;
    IsolatedUnique(D, r, p, Isolated(D, r));
  }

  /** A resolvable conflict adds the next device of the listing. */
  lemma RestStep(D: set<Word64>, s: seq<Word64>, k: nat, h: nat)
    requires IsListing(D, s) && D != {} && 1 <= k < Min(|s|, MAX_DEVICES)
    requires IsHighest(Pending(D, s[k-1]), h) && h < SELECT_BITS
    ensures Rest(D, k, s[k-1], Pending(D, s[k-1])) == [s[k]] + Rest(D, k + 1, s[k], Pending(D, s[k]))
    ensures !Agree(s[k-1], s[k], SELECT_BITS)
  {
    HighestPending(D, s, k, h);
    NextPass(D, s, k, h, Resolve(s[k-1], h));
    RestUnfold(D, k, s[k-1], Pending(D, s[k-1]), h, Resolve(s[k-1], h), s[k]);
  }

  /** From `k` recorded devices on, the scan is exact if and only if all further conflicts are
      harmless. */
  lemma {:induction false} RestExactIff(D: set<Word64>, s: seq<Word64>, k: nat)
    requires IsListing(D, s) && D != {} && 1 <= k <= Min(|s|, MAX_DEVICES)
    requires k == 1 || !Agree(s[k-2], s[k-1], SELECT_BITS)
    ensures Rest(D, k, s[k-1], Pending(D, s[k-1])) == s[k..Min(|s|, MAX_DEVICES)] <==> HarmlessFrom(s, k)
    decreases MAX_DEVICES - k
  {
    PendingMeansMore(D, s, k);
    if k < Min(|s|, MAX_DEVICES) {
      var h := Highest(Pending(D, s[k-1]));
      HarmlessSplit(s, k);
      if h < SELECT_BITS {
        RestStep(D, s, k, h);
        RestExactIff(D, s, k + 1);
        SliceHead(s, k, Min(|s|, MAX_DEVICES), Rest(D, k + 1, s[k], Pending(D, s[k])));
      } else {
        StuckRest(D, s, k, h);
      }
    }
  }

  lemma HarmlessSplit(s: seq<Word64>, k: nat)
    requires 1 <= k < Min(|s|, MAX_DEVICES)
    ensures HarmlessFrom(s, k) <==> Harmless(s, k) && HarmlessFrom(s, k + 1)
  {
  }

  /** Once stuck, the scan repeats one phantom until its table is full. */
  lemma StuckRest(D: set<Word64>, s: seq<Word64>, k: nat, h: nat)
    requires IsListing(D, s) && D != {} && 1 <= k < Min(|s|, MAX_DEVICES)
    requires k == 1 || !Agree(s[k-2], s[k-1], SELECT_BITS)
    requires SELECT_BITS <= h && IsHighest(Pending(D, s[k-1]), h)
    ensures Rest(D, k, s[k-1], Pending(D, s[k-1])) == s[k..Min(|s|, MAX_DEVICES)]
       <==> HarmlessFrom(s, k)
  {
    var p, cmask, m := s[k-1], Pending(D, s[k-1]), Min(|s|, MAX_DEVICES);
    var phantom, r := p[h := true], Resolve(p, h);
    StuckPass(D, s, k, h, r);
    HighestPending(D, s, k, h);
    HarmlessSplit(s, k);
    RestUnfold(D, k, p, cmask, h, r, p);
    if k == MAX_DEVICES - 1 {
      assert Rest(D, k, p, cmask) == [phantom] && s[k..m] == [s[k]];
      PhantomIsReal(p, s[k], h);
    } else {
      RestUnfold(D, k + 1, phantom, cmask, h, r, p);
      var all := Rest(D, k, p, cmask);
      assert all[0] == phantom && all[1] == phantom;
      if all == s[k..m] {
        assert s[k..m][0] == s[k] && s[k..m][1] == s[k+1];
        assert Before(s[k], s[k+1]);
        BeforeAsymmetric(s[k], s[k+1]);
      }
    }
  }

  lemma PhantomIsReal(p: Word64, t: Word64, h: nat)
    requires SplitAt(p, t, h) && t[h]
    ensures p[h := true] == t <==> OneBitApart(p, t)
  {
    if p[h := true] == t { assert SetsBit(p, t, h); }
  }

  /** The scan of a bus lists its devices, each once, in discovery order, up to the table size, if
      and only if each conflict it meets is harmless and what the table held before has no bit that
      the first device lacks: a pass never clears a bit. */
  lemma ScanExactIff(D: set<Word64>, s: seq<Word64>, first: Word64)
    requires IsListing(D, s)
    ensures Scan(D, first) == s[..Min(|s|, 8)]
       <==> s == [] || (Covers(s[0], first) && HarmlessFrom(s, 1))
  {
    if s == [] {
      assert forall d :: d in D ==> Listed(s, d);
    } else if !Covers(s[0], first) {
      assert s[0] in D;
      assert Covers(Reported(D, first, Isolated(D, first)), first);
      assert s[..Min(|s|, MAX_DEVICES)][0] == s[0];
    } else {
      FirstPass(D, s, first);
      IsolatedUnique(D, first, s[0], Isolated(D, first));
      RestExactIff(D, s, 1);
      SliceHead(s, 0, Min(|s|, MAX_DEVICES), Rest(D, 1, s[0], Pending(D, s[0])));
      assert s[0..Min(|s|, MAX_DEVICES)] == s[..Min(|s|, MAX_DEVICES)];
    }
  }

  /** For devices pairwise distinct in their low 32 bits the scan is exact, and so is a second scan
      that starts from the table the first one left. */
  lemma ScanEnumerates(D: set<Word64>, s: seq<Word64>)
    requires IsListing(D, s)
    requires forall d, e :: d in D && e in D && d != e ==> !Agree(d, e, 32)
    ensures Scan(D, ZERO) == s[..Min(|s|, 8)]
    ensures s != [] ==> Scan(D, Scan(D, ZERO)[0]) == Scan(D, ZERO)
  {
    forall k | 1 <= k < Min(|s|, MAX_DEVICES) ensures Harmless(s, k) {
      assert s[k-1] in D && s[k] in D;
      assert Before(s[k-1], s[k]);
      BeforeAsymmetric(s[k-1], s[k]);
    }
    ScanExactIff(D, s, ZERO);
    if s != [] { ScanExactIff(D, s, s[0]); }
  }

  /** A table left by another device: the bit it has and the first device lacks stays in the report. */
  lemma StaleTableBreaksScan(d: Word64, first: Word64)
    requires !Covers(d, first)
    ensures IsListing({d}, [d]) && Scan({d}, first) != [d]
  {
    var s := [d];
    assert Listed(s, d) by { assert s[0] == d; }
    ScanExactIff({d}, s, first);
    assert s[..1] == s;
  }

  /** Two devices that differ in bit 32 alone fill the table with copies of the second one. */
  lemma HighWordConflictBreaksScan()
    ensures var twin: Word64 := ZERO[32 := true];
            && IsListing({ZERO, twin}, [ZERO, twin])
            && Scan({ZERO, twin}, ZERO) != [ZERO, twin]
  {
    var twin: Word64 := ZERO[SELECT_BITS := true];
    var D, s := {ZERO, twin}, [ZERO, twin];
    assert SplitAt(ZERO, twin, SELECT_BITS);
    assert Before(s[0], s[1]);
    assert forall d :: d in D ==> s[0] == d || s[1] == d;
    assert !Harmless(s, 1);
    ScanExactIff(D, s, ZERO);
    assert s[..2] == s;
  }

  /** Each finite set of devices has a listing. */
  lemma {:induction false} ListingExists(D: set<Word64>) returns (s: seq<Word64>)
    ensures IsListing(D, s)
    decreases |D|
  {
    if D == {} {
      s := [];
    } else {
      var p := Isolated(D, ZERO);
      var t := ListingExists(D - {p});
      s := [p] + t;
      forall i, k | 0 <= i < k < |s| ensures Before(s[i], s[k]) {
        if i == 0 {
          assert t[k-1] in D - {p};
          FirstIsLeast(D, p, s[k]);
        } else {
          assert Before(t[i-1], t[k-1]);
        }
      }
      forall i | 0 <= i < |s| ensures s[i] in D {
        if i > 0 { assert t[i-1] in D - {p}; }
      }
      forall d | d in D ensures Listed(s, d) {
        if d == p {
          assert s[0] == d;
        } else {
          assert Listed(t, d);
          var m :| 0 <= m < |t| && t[m] == d;
          assert s[m+1] == d;
        }
      }
    }
  }

  lemma FirstIsLeast(D: set<Word64>, p: Word64, e: Word64)
    requires p in D && e in D && e != p
    requires forall k: nat :: Ambiguous(D, p, k) ==> !p[k]
    ensures Before(p, e)
  {
    assert !Agree(e, p, ROM_BITS);
    SplitExists(e, p, ROM_BITS);
    var j: nat :| j < ROM_BITS && SplitAt(e, p, j);
    assert Ambiguous(D, p, j);
    assert SplitAt(p, e, j);
  }

  // ---------------------------------------------------------------------------------------------
  // The code
  // ---------------------------------------------------------------------------------------------

  datatype Dibit = Zero | One | Both

  function WithBit(A: set<Word64>, i: nat, bit: bool): set<Word64>
    requires i < ROM_BITS
  {
    set a | a in A && a[i] == bit
  }

  /** All the devices send this bit. */
  predicate AllHave(A: set<Word64>, i: nat, bit: bool)
    requires i < ROM_BITS
  {
    forall a :: a in A ==> a[i] == bit
  }

  lemma NoneHas(A: set<Word64>, i: nat, bit: bool)
    requires i < ROM_BITS
    ensures WithBit(A, i, bit) == {} <==> AllHave(A, i, !bit)
  {
    if WithBit(A, i, bit) == {} {
      forall a | a in A ensures a[i] == !bit {
        assert a !in WithBit(A, i, bit);
      }
    }
  }

  /** The devices left after one search step: an unambiguous bit keeps all of them. */
  function Survivors(A: set<Word64>, i: nat, select: bool): set<Word64>
    requires i < ROM_BITS
  {
    if WithBit(A, i, false) == {} || WithBit(A, i, true) == {} then A else WithBit(A, i, select)
  }

  /** The wire, the devices on it, and the table the driver fills in. */
  class Bus {
    const attached: set<Word64>
    var active: set<Word64>      // devices still taking part in the search
    var bitno: nat               // the bit they are at
    var complement: bool         // the next read slot carries the complement
    const devs: array<Word64>

    ghost predicate Valid()
      reads this
    {
      devs.Length == MAX_DEVICES
    }

    /** Presence pulse, and all devices listen again. */
    method Reset() returns (present: bool)
      modifies this`active, this`bitno, this`complement
      ensures present <==> attached != {}
      ensures active == attached && bitno == 0 && !complement
    {
      active, bitno, complement := attached, 0, false;
      present := attached != {};
    }

    /** Wired AND of the current bit, then of its complement, over the active devices. */
    method ReadBit() returns (bit: bool)
      requires bitno < ROM_BITS
      modifies this`complement
      ensures complement == !old(complement)
      ensures bit == AllHave(active, bitno, !old(complement))
    {
      bit := AllHave(active, bitno, !complement);
      complement := !complement;
    }

    /** Devices whose bit differs from the master's drop out. */
    method WriteBit(bit: bool)
      requires bitno < ROM_BITS
      modifies this`active, this`bitno
      ensures active == WithBit(old(active), old(bitno), bit) && bitno == old(bitno) + 1
    {
      active := WithBit(active, bitno, bit);
      bitno := bitno + 1;
    }

    /** One search step: reads both polarities and answers. */
    method GetDibit(select: bool) returns (b: Dibit)
      requires bitno < ROM_BITS && active != {} && !complement
      modifies this`active, this`bitno, this`complement
      ensures !complement && bitno == old(bitno) + 1
      ensures b == One <==> WithBit(old(active), old(bitno), false) == {}
      ensures b == Zero <==> WithBit(old(active), old(bitno), true) == {}
      ensures active == Survivors(old(active), old(bitno), select)
    {
      ghost var A, i := active, bitno;
      var x := ReadBit();
      var y := ReadBit();
      assert active == A && bitno == i;
      NoneHas(A, i, false);
      NoneHas(A, i, true);
      assert !(x && y) by {
        var a :| a in A;
        assert AllHave(A, i, true) ==> a[i];
      }
      if x != y {
        WriteBit(x);
        assert active == A;
        return if x then One else Zero;
      }
      WriteBit(select);
      return Both;
    }

    /** The body of the search loop at bit `i`. */
    method SearchBit(rom: Word64, cmask: Word64, i: nat) returns (rom': Word64, cmask': Word64)
      requires i == bitno < ROM_BITS && active != {} && !complement
      modifies this`active, this`bitno, this`complement
      ensures !complement && bitno == i + 1
      ensures active == Survivors(old(active), i, Selected(rom, i))
      ensures var ones, zeros := WithBit(old(active), i, true), WithBit(old(active), i, false);
              && rom' == rom[i := rom[i] || zeros == {}]
              && cmask' == cmask[i := cmask[i] || (ones != {} && zeros != {} && !Selected(rom, i))]
    {
      rom', cmask' := rom, cmask;
      var select := i < SELECT_BITS && rom[i];
      var b := GetDibit(select);
      match b {
        case One => rom' := rom[i := true];
        case Zero =>
        case Both =>
          if !select { cmask' := cmask[i := true]; }
      }
    }

    /** One search pass.  `rom` carries the answers to give on conflicts. */
    method ScanOne(rom: Word64) returns (ok: bool, rom': Word64, cmask: Word64)
      modifies this`active, this`bitno, this`complement
      ensures ok <==> attached != {}
      ensures ok ==> rom' == Reported(attached, rom, Isolated(attached, rom))
      ensures ok ==> cmask == Conflicts(attached, rom, Isolated(attached, rom))
    {
      rom', cmask := rom, ZERO;
      var present := Reset();
      if !present {
        return false, rom', cmask;
      }
      ghost var p := Isolated(attached, rom);
      ghost var R, C := Reported(attached, rom, p), Conflicts(attached, rom, p);
      var i := 0;
      while i < ROM_BITS
        invariant 0 <= i == bitno <= ROM_BITS && !complement
        invariant active == Sharing(attached, p, i)
        invariant rom' == R[..i] + rom[i..] && cmask == C[..i] + ZERO[i..]
      {
        StepFacts(attached, rom, i, p);
        Splice(rom', R, rom, i);
        Splice(cmask, C, ZERO, i);
        rom', cmask := SearchBit(rom', cmask, i);
        i := i + 1;
      }
      ok := true;
    }

    /** Resolves the last conflict and searches again; there is none left when `more` is false. */
    method ScanNext(n: nat, rom: Word64, cmask: Word64, ghost rest: seq<Word64>)
      returns (more: bool, rom': Word64, cmask': Word64, ghost rest': seq<Word64>)
      requires n < MAX_DEVICES && ToCome(attached, n, rom, cmask, rest)
      modifies this`active, this`bitno, this`complement
      ensures !more ==> rest == []
      ensures more ==> ToCome(attached, n + 1, rom', cmask', rest') && rest == [rom'] + rest'
    {
      rom', cmask', rest' := rom, cmask, [];
      var j, next := NextRequest(rom, cmask);
      if j < 0 {
        assert !HasBit(cmask) && Rest(attached, n, rom, cmask) == [];
        return false, rom, cmask, [];
      }
      RestUnfold(attached, n, rom, cmask, j, next, Isolated(attached, next));
      more, rom', cmask' := ScanOne(next);
      rest' := Rest(attached, n + 1, rom', cmask');
    }

    /** The first pass, from what the table holds. */
    method ScanFirst(ghost total: seq<Word64>) returns (ok: bool, rom: Word64, cmask: Word64, ghost rest: seq<Word64>)
      requires Valid() && total == Scan(attached, devs[0])
      modifies this`active, this`bitno, this`complement
      ensures !ok ==> total == []
      ensures ok ==> ToCome(attached, 1, rom, cmask, rest) && total == [rom] + rest
    {
      ok, rom, cmask := ScanOne(devs[0]);
      rest := if ok then Rest(attached, 1, rom, cmask) else [];
    }

    /** Enters a device in the table. */
    method Record(n: nat, rom: Word64)
      requires n < devs.Length
      modifies devs
      ensures devs[..n+1] == old(devs[..n]) + [rom]
    {
      devs[n] := rom;
    }

    /** One more entry of the table, if a conflict is left. */
    method ScanSlot(n: nat, rom: Word64, cmask: Word64, ghost rest: seq<Word64>, ghost total: seq<Word64>)
      returns (more: bool, rom': Word64, cmask': Word64, ghost rest': seq<Word64>)
      requires Valid() && n < MAX_DEVICES && ToCome(attached, n, rom, cmask, rest) && devs[..n] + rest == total
      modifies this`active, this`bitno, this`complement, devs
      ensures !more ==> devs[..n] == total
      ensures more ==> ToCome(attached, n + 1, rom', cmask', rest') && devs[..n+1] + rest' == total
    {
      ghost var found := devs[..n];
      more, rom', cmask', rest' := ScanNext(n, rom, cmask, rest);
      if more {
        Regroup(found, rom', rest');
        Record(n, rom');
      }
    }

    /** The passes after the first. */
    method ScanRest(first: Word64, conflicts: Word64, ghost pending: seq<Word64>, ghost total: seq<Word64>) returns (n: nat)
      requires Valid() && ToCome(attached, 1, first, conflicts, pending) && devs[..1] + pending == total
      modifies this`active, this`bitno, this`complement, devs
      ensures n <= MAX_DEVICES && devs[..n] == total
    {
      var rom, cmask := first, conflicts;
      ghost var rest := pending;
      n := 1;
      while n < MAX_DEVICES
        invariant 1 <= n <= MAX_DEVICES && ToCome(attached, n, rom, cmask, rest) && devs[..n] + rest == total
      {
        var more;
        more, rom, cmask, rest := ScanSlot(n, rom, cmask, rest, total);
        if !more {
          return;
        }
        n := n + 1;
      }
      NoneToCome(attached, rom, cmask, rest);
    }

    /** The bus scan. */
    method ScanBus() returns (n: nat)
      requires Valid()
      modifies this`active, this`bitno, this`complement, devs
      ensures n <= MAX_DEVICES && devs[..n] == Scan(attached, old(devs[0]))
    {
      ghost var total := Scan(attached, devs[0]);
      ghost var rest;
      var ok, rom, cmask;
      ok, rom, cmask, rest := ScanFirst(total);
      if !ok {
        return 0;
      }
      Record(0, rom);
      n := ScanRest(rom, cmask, rest, total);
    }
  }

  lemma NoneToCome(D: set<Word64>, rom: Word64, cmask: Word64, rest: seq<Word64>)
    requires ToCome(D, MAX_DEVICES, rom, cmask, rest)
    ensures rest == []
  {
    assert Rest(D, MAX_DEVICES, rom, cmask) == [];
  }

  /** The devices a scan has yet to report.  The equation is quantified so that a proof unfolds `Rest`
      only where it names it. */
  ghost predicate ToCome(D: set<Word64>, n: nat, rom: Word64, cmask: Word64, rest: seq<Word64>) {
    && D != {} && n <= MAX_DEVICES
    && forall m: nat {:trigger Rest(D, m, rom, cmask)} :: m == n ==> rest == Rest(D, m, rom, cmask)
  }

  lemma Regroup<T>(a: seq<T>, x: T, b: seq<T>)
    ensures (a + [x]) + b == a + ([x] + b)
  {
  }

  /** Clears `rom` above the highest pending conflict and sets the bit there. */
  method NextRequest(rom: Word64, cmask: Word64) returns (j: int, next: Word64)
    ensures -1 <= j < ROM_BITS
    ensures j < 0 ==> forall i :: 0 <= i < ROM_BITS ==> !cmask[i]
    ensures 0 <= j ==> IsHighest(cmask, j) && next == Resolve(rom, j)
  {
    next, j := rom, ROM_BITS - 1;
    while 0 <= j && !cmask[j]
      invariant -1 <= j < ROM_BITS
      invariant forall i :: j < i < ROM_BITS ==> !cmask[i] && !next[i]
      invariant forall i :: 0 <= i <= j ==> next[i] == rom[i]
    {
      next := next[j := false];
      j := j - 1;
    }
    if 0 <= j {
      next := next[j := true];
    }
  }

  /** The devices that agree with `p` below bit `i`. */
  ghost function Sharing(D: set<Word64>, p: Word64, i: nat): set<Word64>
    requires i <= ROM_BITS
  {
    set e | e in D && Agree(e, p, i)
  }

  lemma Splice(w: Word64, done: Word64, todo: Word64, i: nat)
    requires i < ROM_BITS && w == done[..i] + todo[i..]
    ensures w[i] == todo[i]
    ensures w[i := done[i]] == done[..i+1] + todo[i+1..]
  {
  }

  /** One search step keeps the devices that agree with the isolated one, and tells its bit. */
  lemma StepFacts(D: set<Word64>, r: Word64, i: nat, p: Word64)
    requires i < ROM_BITS && Isolates(D, r, p)
    ensures var A := Sharing(D, p, i);
            && A != {}
            && Survivors(A, i, Selected(r, i)) == Sharing(D, p, i + 1)
            && Reported(D, r, p)[i] == (r[i] || WithBit(A, i, false) == {})
            && Conflicts(D, r, p)[i]
               == (WithBit(A, i, true) != {} && WithBit(A, i, false) != {} && !Selected(r, i))
  {
    var A := Sharing(D, p, i);
    assert p in A;
    NoneHas(A, i, true);
    NoneHas(A, i, false);
    assert Ambiguous(D, p, i) <==> exists e :: e in A && e[i] != p[i] by {
      if e :| e in A && e[i] != p[i] { assert SplitAt(e, p, i); }
    }
  }
}
