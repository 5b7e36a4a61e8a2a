/** Object identifiers as byte strings, their order, and `memcmp` (lib/snmp.c). */
module SnmpOid {
  import opened Octets

  /** The first difference between the two strings is at index `d`. */
  predicate DiffersAt(a: Bytes, b: Bytes, d: nat) {
    d < |a| && d < |b| && a[d] != b[d] && forall k :: 0 <= k < d ==> a[k] == b[k]
  }

  /** `a` is a prefix of `b`, possibly all of it. */
  predicate PrefixOf(a: Bytes, b: Bytes) {
    |a| <= |b| && forall k :: 0 <= k < |a| ==> a[k] == b[k]
  }

  /** Lexicographic order of object identifiers. */
  ghost predicate Less(a: Bytes, b: Bytes) {
    || (|a| < |b| && PrefixOf(a, b))
    || exists d: nat :: DiffersAt(a, b, d) && a[d] < b[d]
  }

  /** The same order read from the front: identifiers are compared number by number, and what has run
      out comes first. */
  predicate Precedes(a: Bytes, b: Bytes)
    decreases |a|
  {
    if b == [] then false
    else if a == [] then true
    else if a[0] != b[0] then a[0] < b[0]
    else Precedes(a[1..], b[1..])
  }

  lemma {:induction false} LessIsPrecedes(a: Bytes, b: Bytes)
    ensures Less(a, b) <==> Precedes(a, b)
  {
    if a == [] || b == [] {
      assert PrefixOf([], b);
    } else if a[0] != b[0] {
      assert DiffersAt(a, b, 0);
      forall d: nat | DiffersAt(a, b, d) ensures d == 0 {
        DiffersOnce(a, b, d, 0);
      }
    } else {
      LessIsPrecedes(a[1..], b[1..]);
      LessCommonPrefix(a[..1], a[1..], b[1..]);
      assert a == a[..1] + a[1..] && b == a[..1] + b[1..];
    }
  }

  predicate SameUpTo(a: Bytes, b: Bytes, n: nat)
    requires n <= |a| && n <= |b|
  {
    forall k :: 0 <= k < n ==> a[k] == b[k]
  }

  /** `memcmp` over the first `n` bytes; its sign is what fits the `int8_t` of the callers. */
  function MemCmp(a: Bytes, b: Bytes, n: nat): (c: int)
    requires n <= |a| && n <= |b|
    ensures -1 <= c <= 1
    ensures c == 0 <==> SameUpTo(a, b, n)
    ensures c > 0 ==> exists d: nat :: d < n && DiffersAt(a, b, d) && b[d] < a[d]
    ensures c < 0 ==> exists d: nat :: d < n && DiffersAt(a, b, d) && a[d] < b[d]
  {
    if n == 0 then 0
    else
      var c := MemCmp(a, b, n - 1);
      if c != 0 || a[n-1] == b[n-1] then c
      else
        assert DiffersAt(a, b, n - 1);
        if a[n-1] < b[n-1] then -1 else 1
  }

  lemma DiffersOnce(a: Bytes, b: Bytes, c: nat, d: nat)
    requires DiffersAt(a, b, c) && DiffersAt(a, b, d)
    ensures c == d
  {
    assert !(c < d) && !(d < c);
  }

  /** The order has no cycles and no fixed points. */
  lemma LessAsymmetric(a: Bytes, b: Bytes)
    requires Less(a, b)
    ensures !Less(b, a) && a != b
  {
    if d: nat :| DiffersAt(a, b, d) && a[d] < b[d] {
      forall c: nat | DiffersAt(b, a, c) ensures a[c] < b[c] {
        assert DiffersAt(a, b, c);
        DiffersOnce(a, b, c, d);
      }
    } else {
      assert PrefixOf(a, b);
      assert forall c: nat :: !DiffersAt(b, a, c);
    }
  }

  lemma LessTransitive(a: Bytes, b: Bytes, c: Bytes)
    requires Less(a, b) && Less(b, c)
    ensures Less(a, c)
  {
    if d: nat :| DiffersAt(a, b, d) && a[d] < b[d] {
      if e: nat :| DiffersAt(b, c, e) && b[e] < c[e] {
        assert DiffersAt(a, c, if d < e then d else e);
      } else {
        assert DiffersAt(a, c, d);
      }
    } else {
      if e: nat :| DiffersAt(b, c, e) && b[e] < c[e] {
        if e < |a| { assert DiffersAt(a, c, e); }
      }
    }
  }

  /** A common prefix does not matter. */
  lemma LessCommonPrefix(p: Bytes, a: Bytes, b: Bytes)
    ensures Less(p + a, p + b) <==> Less(a, b)
  {
    var pa, pb := p + a, p + b;
    assert PrefixOf(pa, pb) <==> PrefixOf(a, b) by {
      if PrefixOf(pa, pb) {
        forall k | 0 <= k < |a| ensures a[k] == b[k] {
          assert pa[|p| + k] == pb[|p| + k];
        }
      }
    }
    if d: nat :| DiffersAt(a, b, d) && a[d] < b[d] {
      assert DiffersAt(pa, pb, |p| + d);
    }
    if d: nat :| DiffersAt(pa, pb, d) && pa[d] < pb[d] {
      assert |p| <= d;
      forall k | 0 <= k < d - |p| ensures a[k] == b[k] {
        assert pa[|p| + k] == pb[|p| + k];
      }
      assert DiffersAt(a, b, d - |p|);
    }
  }

  /** A difference within the compared part decides the order of all extensions. */
  lemma CmpDecides(a: Bytes, b: Bytes, n: nat, x: Bytes)
    requires n <= |a| && n <= |b|
    ensures MemCmp(a, b, n) > 0 ==> Less(b, a + x) && !Less(a + x, b)
    ensures MemCmp(a, b, n) < 0 ==> Less(a + x, b) && !Less(b, a + x)
  {
    if MemCmp(a, b, n) > 0 {
      var d: nat :| d < n && DiffersAt(a, b, d) && b[d] < a[d];
      assert DiffersAt(b, a + x, d);
      LessAsymmetric(b, a + x);
    }
    if MemCmp(a, b, n) < 0 {
      var d: nat :| d < n && DiffersAt(a, b, d) && a[d] < b[d];
      assert DiffersAt(a + x, b, d);
      LessAsymmetric(a + x, b);
    }
  }

  /** A string precedes each of its proper extensions. */
  lemma LessExtension(a: Bytes, x: Bytes)
    requires x != []
    ensures Less(a, a + x) && !Less(a + x, a)
  {
    assert PrefixOf(a, a + x);
    LessAsymmetric(a, a + x);
  }
}
