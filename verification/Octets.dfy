/** Bytes and numbers stored in network order. */
module Octets {

  newtype u8 = x: int | 0 <= x < 256

  type Bytes = seq<u8>

  /** 256 to the `n`. */
  function Pow256(n: nat): (p: nat)
    ensures p >= 1
  {
    if n == 0 then 1 else 256 * Pow256(n - 1)
  }

  function FromBE(b: Bytes): (x: nat) {
    if b == [] then 0 else FromBE(b[..|b|-1]) * 256 + b[|b|-1] as int
  }

  function ToBE(x: nat, n: nat): (b: Bytes)
    ensures |b| == n
  {
    if n == 0 then [] else ToBE(x / 256, n - 1) + [(x % 256) as u8]
  }

  /** The first byte is the most significant one. */
  lemma {:induction false} FromBEHead(h: u8, t: Bytes)
    ensures FromBE([h] + t) == h as int * Pow256(|t|) + FromBE(t)
  {
    if t == [] {
      assert [h] + t == [h] && [h][..0] == [];
      assert FromBE([h]) == FromBE([]) * 256 + h as int;
    } else {
      var r, x := t[..|t|-1], t[|t|-1];
      FromBEHead(h, r);
      assert ([h] + t)[..|t|] == [h] + r;
      ShiftOnce(h as int, Pow256(|r|), FromBE(r), x as int);
    }
  }

  lemma ShiftOnce(h: int, p: int, r: int, x: int)
    ensures (h * p + r) * 256 + x == h * (256 * p) + (r * 256 + x)
  {
    assert h * (256 * p) == 256 * (h * p);
  }

  lemma {:induction false} FromToBE(x: nat, n: nat)
    requires x < Pow256(n)
    ensures FromBE(ToBE(x, n)) == x
  {
    if n > 0 {
      FromToBE(x / 256, n - 1);
      assert ToBE(x, n)[..n-1] == ToBE(x / 256, n - 1);
    }
  }

  // ---------------------------------------------------------------------------------------------
  // Sums of bytes
  // ---------------------------------------------------------------------------------------------

  function Sum(b: Bytes): nat {
    if b == [] then 0 else Sum(b[..|b|-1]) + b[|b|-1] as int
  }

  lemma {:induction false} SumConcat(a: Bytes, b: Bytes)
    ensures Sum(a + b) == Sum(a) + Sum(b)
  {
    if b == [] {
      assert a + b == a;
    } else {
      SumConcat(a, b[..|b|-1]);
      assert (a + b)[..|a+b|-1] == a + b[..|b|-1];
    }
  }

  lemma SumOne(x: u8)
    ensures Sum([x]) == x as int
  {
    assert [x][..0] == [];
  }

  /** The same sum, taken from the front. */
  function Total(b: Bytes): nat {
    if b == [] then 0 else b[0] as int + Total(b[1..])
  }

  lemma {:induction false} SumIsTotal(b: Bytes)
    ensures Sum(b) == Total(b)
  {
    if b != [] {
      SumIsTotal(b[1..]);
      SumConcat(b[..1], b[1..]);
      assert b == b[..1] + b[1..] && b[..1][..0] == [];
    }
  }

  /** `after` is `before` with `b` written at `offset`. */
  lemma Written(before: Bytes, after: Bytes, offset: nat, b: Bytes)
    requires offset + |b| <= |before| == |after|
    requires forall k :: 0 <= k < |after| ==> after[k] == if offset <= k < offset + |b| then b[k-offset] else before[k]
    ensures after == before[..offset] + b + before[offset+|b|..]
  {
  }
}
