/** 64-by-32-bit division by shift and subtract (pp_printf/div64.c), and the wrapper that calls it. */
module Division {
  import opened Arith

  const TWO32: nat := 0x1_0000_0000
  const TWO63: nat := 0x8000_0000_0000_0000
  const TWO64: nat := 0x1_0000_0000_0000_0000

  /** `d` is one of the values a doubling from one can reach. */
  ghost predicate PowerOfTwo(d: nat) {
    d == 1 || (d > 1 && d % 2 == 0 && PowerOfTwo(d / 2))
  }

  lemma HalvesOf(base: nat, b: nat, d: nat)
    requires b == base * d && d % 2 == 0
    ensures b / 2 == base * (d / 2) && b % 2 == 0
  {
    assert d == 2 * (d / 2);
    assert base * d == 2 * (base * (d / 2));
  }

  lemma Doubled(base: nat, b: nat, d: nat)
    requires b == base * d
    ensures b + b == base * (d + d)
  {
  }

  lemma Subtracted(n: nat, base: nat, res: nat, rem: nat, b: nat, d: nat)
    requires n == res * base + rem && b == base * d && rem >= b
    ensures n == (res + d) * base + (rem - b)
  {
  }

  /** The reduction of the upper half: nothing overflows and the value is kept. */
  lemma Reduced(rem: nat, base: nat, high: nat)
    requires 0 < base && rem < TWO64 && high == rem / TWO32
    ensures var q := high / base;
            && q * base < TWO32 && q * TWO32 < TWO64 && q * base * TWO32 <= rem
            && rem == (q * TWO32) * base + (rem - q * base * TWO32)
  {
    var q := high / base;
    assert high == q * base + high % base;
    assert q * base <= high;
    MulMonotone(q * base, high, TWO32);
    assert (q * TWO32) * base == q * base * TWO32;
    assert q <= high by { MulMonotone(1, base, q); }
  }

  /** `x` modulo `m`, the value an unsigned result of that width takes. */
  function Wrap(x: nat, m: nat): nat
    requires m > 0
  {
    if x < m then x else x % m
  }

  /** The quotient and the remainder; no addition, product or shift on the way wraps. */
  method Div64By32(n: nat, base: nat) returns (quotient: nat, remainder: nat)
    requires n < TWO64 && 0 < base < TWO32
    ensures quotient == n / base && remainder == n % base
  {
    var rem := n;
    var high := rem / TWO32;
    var res := 0;
    if high >= base {
      Reduced(rem, base, high);
      high := high / base;
      res := Wrap(high * TWO32, TWO64);
      rem := rem - Wrap(Wrap(high * base, TWO32) * TWO32, TWO64);
    }
    var b, d := Align(rem, base);
    res, rem := Subtract(n, base, res, rem, b, d);
    DivModUnique(n, base, res, rem);
    quotient, remainder := res, rem;
  }

  /** Doubles the divisor until it reaches the remainder or the top bit. */
  method Align(rem: nat, base: nat) returns (b: nat, d: nat)
    requires rem < TWO64 && 0 < base < TWO32
    ensures b == base * d && PowerOfTwo(d) && rem < 2 * b && b < TWO64
  {
    b, d := base, 1;
    while 0 < b < TWO63 && b < rem
      invariant b == base * d && PowerOfTwo(d) && 0 < b < TWO64
      decreases TWO64 - b
    {
      Doubled(base, b, d);
      MulMonotone(1, base, d + d);
      b, d := Wrap(b + b, TWO64), Wrap(d + d, TWO64);
      assert d / 2 * 2 == d;
    }
  }

  /** Subtracts the shifted divisor where it fits, from the top down. */
  method Subtract(n: nat, base: nat, res0: nat, rem0: nat, b0: nat, d0: nat) returns (res: nat, rem: nat)
    requires 0 < base && n < TWO64
    requires n == res0 * base + rem0 && b0 == base * d0 && PowerOfTwo(d0) && rem0 < 2 * b0
    ensures n == res * base + rem && rem < base
  {
    res, rem := res0, rem0;
    var b: nat, d: nat := b0, d0;
    while d != 0
      invariant Split(n, base, res, rem, b, d)
      decreases d
    {
      SplitStep(n, base, res, rem, b, d);
      if rem >= b {
        rem := rem - b;
        res := Wrap(res + d, TWO64);
      }
      b, d := b / 2, d / 2;
    }
  }

  /** The dividend so far divided, with the divisor shifted to `b`; below the divisor at the end. */
  ghost predicate Split(n: nat, base: nat, res: nat, rem: nat, b: nat, d: nat) {
    && n == res * base + rem
    && if d == 0 then rem < base else b == base * d && PowerOfTwo(d) && rem < 2 * b
  }

  lemma SplitStep(n: nat, base: nat, res: nat, rem: nat, b: nat, d: nat)
    requires 0 < base && n < TWO64 && Split(n, base, res, rem, b, d) && 0 < d
    ensures rem >= b ==> res + d < TWO64 && Split(n, base, res + d, rem - b, b / 2, d / 2)
    ensures rem < b ==> Split(n, base, res, rem, b / 2, d / 2)
  {
    if rem >= b {
      Subtracted(n, base, res, rem, b, d);
      MulMonotone(1, base, res + d);
    }
    if d > 1 { HalvesOf(base, b, d); }
  }

  /** The wrapper: 32-bit values take the machine's own division. */
  method DoDiv(n: nat, base: nat) returns (quotient: nat, remainder: nat)
    requires n < TWO64 && 0 < base < TWO32
    ensures quotient == n / base && remainder == n % base
  {
    if n / TWO32 == 0 {
      quotient, remainder := n / base, n % base;
    } else {
      quotient, remainder := Div64By32(n, base);
    }
  }
}
