/** The PI controller of the SoftPLL, with clamping and anti-windup (softpll/spll_common.c). */
module PiController {
  import opened Arith

  function Abs(x: int): (a: int)
    ensures a >= 0 && -a <= x <= a
  {
    if x < 0 then -x else x
  }

  function Pow2(n: nat): (p: int)
    ensures p >= 1
  {
    if n == 0 then 1 else 2 * Pow2(n - 1)
  }

  /** The settings; they do not change while the controller runs. */
  datatype Gains = Gains(ki: int, kp: int, shift: nat, bias: int, yMin: int, yMax: int, antiWindup: bool) {
    predicate Valid() {
      1 <= shift && yMin <= yMax
    }

    predicate Centred() {
      yMin <= bias <= yMax
    }

    function Scale(): int { Pow2(shift) }

    /** `1 << (shift - 1)`, added for rounding. */
    function Half(): int
      requires Valid()
    {
      Pow2(shift - 1)
    }
  }

  datatype Pi = Pi(integrator: int, y: int)

  function Init(g: Gains): Pi {
    Pi(0, g.bias)
  }

  /** The integrator if it is let run, and the output before clamping. */
  function Proposed(g: Gains, pi: Pi, x: int): int {
    pi.integrator + g.ki * x
  }

  function Raw(g: Gains, pi: Pi, x: int): int
    requires g.Valid()
  {
    (Proposed(g, pi, x) + x * g.kp + g.Half()) / g.Scale() + g.bias
  }

  function Update(g: Gains, pi: Pi, x: int): Pi
    requires g.Valid()
  {
    var iNew, y := Proposed(g, pi, x), Raw(g, pi, x);
    if y < g.yMin then
      Pi(if !g.antiWindup || iNew > pi.integrator then iNew else pi.integrator, g.yMin)
    else if y > g.yMax then
      Pi(if !g.antiWindup || iNew < pi.integrator then iNew else pi.integrator, g.yMax)
    else
      Pi(iNew, y)
  }

  /** The controller after a run of inputs. */
  function Run(g: Gains, xs: seq<int>): Pi
    requires g.Valid()
  {
    if xs == [] then Init(g) else Update(g, Run(g, xs[..|xs|-1]), xs[|xs|-1])
  }

  /** The bounds anti-windup keeps for inputs of magnitude at most `X`. */
  function Lo(g: Gains, X: int): int
    requires g.Valid()
  {
    (g.yMin - g.bias) * g.Scale() - X * Abs(g.kp) - g.Half()
  }

  function Hi(g: Gains, X: int): int {
    (g.yMax - g.bias + 1) * g.Scale() + X * Abs(g.kp)
  }

  predicate Bounded(g: Gains, X: int, pi: Pi)
    requires g.Valid()
  {
    Lo(g, X) <= pi.integrator <= Hi(g, X) && g.yMin <= pi.y <= g.yMax
  }

  lemma ProductBound(x: int, k: int, X: int)
    requires Abs(x) <= X
    ensures -(X * Abs(k)) <= x * k <= X * Abs(k) && X * Abs(k) >= 0
  {
    if k >= 0 {
      MulMonotone(x, X, k);
      MulMonotone(-X, x, k);
    } else {
      MulMonotone(x, X, -k);
      MulMonotone(-X, x, -k);
      Negated(x, k);
    }
    Negated(X, Abs(k));
  }

  lemma Negated(a: int, b: int)
    ensures (-a) * b == -(a * b) && a * (-b) == -(a * b)
  {
  }

  /** One update keeps the bounds. */
  lemma UpdateKeepsBounds(g: Gains, X: int, pi: Pi, x: int)
    requires g.Valid() && g.antiWindup && Abs(x) <= X && Bounded(g, X, pi)
    ensures Bounded(g, X, Update(g, pi, x))
  {
    var w, sum := g.Scale(), Proposed(g, pi, x) + x * g.kp + g.Half();
    ProductBound(x, g.kp, X);
    FloorBound(sum, w, g.yMin - g.bias);
    FloorBound(sum, w, g.yMax - g.bias + 1);
    Spread(g.yMin - g.bias, g.yMax - g.bias + 1, w);
    assert w == 2 * g.Half();
  }

  /** One step in full.  Let `r` be the weighted error and integral, divided by 2^shift and rounded to the
      nearest: the output is `bias + r`, kept in its range.  The integral grows by `ki * x`, but stands
      still while the output is off its range and `ki * x` would not lead back. */
  lemma StepInFull(g: Gains, pi: Pi, x: int, r: int)
    requires g.Valid() && g.Scale() == 2 * g.Half()
    requires r * g.Scale() - g.Half() <= pi.integrator + g.ki * x + g.kp * x < r * g.Scale() + g.Half()
    ensures var y, q := g.bias + r, Update(g, pi, x);
            && q.y == (if y < g.yMin then g.yMin else if y > g.yMax then g.yMax else y)
            && q.integrator == pi.integrator
                 + if g.antiWindup && ((y < g.yMin && g.ki * x <= 0) || (y > g.yMax && g.ki * x >= 0)) then 0 else g.ki * x
  {
    var w := g.Scale();
    var sum := Proposed(g, pi, x) + x * g.kp + g.Half();
    DivModUnique(sum, w, r, sum - r * w);
  }

  /** Such an `r` there is for every step, and the divisor is a power of two. */
  lemma StepRounds(g: Gains, pi: Pi, x: int) returns (r: int)
    requires g.Valid()
    ensures g.Scale() == 2 * g.Half() && g.Half() == Pow2(g.shift - 1)
    ensures r * g.Scale() - g.Half() <= pi.integrator + g.ki * x + g.kp * x < r * g.Scale() + g.Half()
  {
    var w, sum := g.Scale(), pi.integrator + g.ki * x + g.kp * x + g.Half();
    r := sum / w;
    DivMod(sum, w);
  }

  lemma Spread(a: int, b: int, w: int)
    requires a < b && w > 0
    ensures a * w + w <= b * w
  {
    var d := b - a - 1;
    assert d * w >= 0;
    assert b * w == (a + 1 + d) * w == a * w + w + d * w;
  }

  lemma InitIsBounded(g: Gains, X: int)
    requires g.Valid() && g.Centred() && X >= 0
    ensures Bounded(g, X, Init(g))
  {
    ProductBound(0, g.kp, X);
    MulMonotone(g.yMin - g.bias, 0, g.Scale());
    MulMonotone(0, g.yMax - g.bias + 1, g.Scale());
  }

  function Sum(xs: seq<int>): int {
    if xs == [] then 0 else Sum(xs[..|xs|-1]) + xs[|xs|-1]
  }

  /** The textbook law: integral over all inputs plus proportional to the last one, rounded. */
  function Law(g: Gains, xs: seq<int>): int
    requires g.Valid() && xs != []
  {
    (g.ki * Sum(xs) + g.kp * xs[|xs|-1] + g.Half()) / g.Scale() + g.bias
  }

  /** The law never asks for an output outside the range. */
  ghost predicate Unclamped(g: Gains, xs: seq<int>)
    requires g.Valid()
  {
    forall n {:trigger xs[..n]} :: 0 < n <= |xs| ==> g.yMin <= Law(g, xs[..n]) <= g.yMax
  }

  lemma Distribute(k: int, a: int, b: int)
    ensures k * (a + b) == k * a + k * b
  {
  }

  lemma SumStep(k: int, xs: seq<int>, x: int)
    ensures k * Sum(xs + [x]) == k * Sum(xs) + k * x
  {
    assert (xs + [x])[..|xs|] == xs;
    Distribute(k, Sum(xs), x);
  }

  /** A controller whose integrator holds the sum so far proposes the law of one input more. */
  lemma ProposesLaw(g: Gains, pi: Pi, xs: seq<int>, x: int)
    requires g.Valid() && pi.integrator == g.ki * Sum(xs)
    ensures Proposed(g, pi, x) == g.ki * Sum(xs + [x]) && Raw(g, pi, x) == Law(g, xs + [x])
  {
    assert (xs + [x])[..|xs|] == xs;
    SumStep(g.ki, xs, x);
  }

  /** A step that is not clamped takes the proposed integrator. */
  lemma UnclampedStep(g: Gains, pi: Pi, x: int)
    requires g.Valid() && g.yMin <= Raw(g, pi, x) <= g.yMax
    ensures Update(g, pi, x).integrator == Proposed(g, pi, x)
  {
  }

  lemma {:induction false} IntegratorIsSum(g: Gains, xs: seq<int>)
    requires g.Valid() && Unclamped(g, xs)
    ensures Run(g, xs).integrator == g.ki * Sum(xs)
  {
    if xs != [] {
      var r, z := xs[..|xs|-1], xs[|xs|-1];
      forall n | 0 < n <= |r| ensures g.yMin <= Law(g, r[..n]) <= g.yMax {
        assert r[..n] == xs[..n];
      }
      IntegratorIsSum(g, r);
      assert r + [z] == xs == xs[..|xs|];
      ProposesLaw(g, Run(g, r), r, z);
      UnclampedStep(g, Run(g, r), z);
    }
  }

  /** As long as the law stays in range the controller is exactly that law, and its clamped value at
      the first sample it is not. */
  lemma RunIsLaw(g: Gains, xs: seq<int>, x: int)
    requires g.Valid() && Unclamped(g, xs)
    ensures var y := Law(g, xs + [x]);
            Run(g, xs + [x]).y == if y < g.yMin then g.yMin else if y > g.yMax then g.yMax else y
  {
    IntegratorIsSum(g, xs);
    ProposesLaw(g, Run(g, xs), xs, x);
    assert (xs + [x])[..|xs|] == xs;
  }

  /** Over every run of bounded inputs the integrator and the output stay within their bounds. */
  lemma {:induction false} RunIsBounded(g: Gains, X: int, xs: seq<int>)
    requires g.Valid() && g.Centred() && g.antiWindup && X >= 0
    requires forall i :: 0 <= i < |xs| ==> Abs(xs[i]) <= X
    ensures Bounded(g, X, Run(g, xs))
  {
    if xs == [] {
      InitIsBounded(g, X);
    } else {
      RunIsBounded(g, X, xs[..|xs|-1]);
      UpdateKeepsBounds(g, X, Run(g, xs[..|xs|-1]), xs[|xs|-1]);
    }
  }

  /** The 64-bit sum behind the output, over every run. */
  lemma SumIsBounded(g: Gains, X: int, pi: Pi, x: int)
    requires g.Valid() && Abs(x) <= X && Bounded(g, X, pi)
    ensures Lo(g, X) - X * Abs(g.ki) - X * Abs(g.kp) <= Proposed(g, pi, x) + x * g.kp + g.Half()
         <= Hi(g, X) + X * Abs(g.ki) + X * Abs(g.kp) + g.Half()
  {
    ProductBound(x, g.kp, X);
    ProductBound(x, g.ki, X);
    assert g.ki * x == x * g.ki;
  }

  /** The output before clamping exceeds its range by at most `m`. */
  lemma NeverTruncates(g: Gains, X: int, pi: Pi, x: int, m: int)
    requires g.Valid() && Abs(x) <= X && Bounded(g, X, pi)
    requires X * Abs(g.ki) + 2 * (X * Abs(g.kp)) + g.Half() < m * g.Scale()
    ensures g.yMin - m <= Raw(g, pi, x) <= g.yMax + m + 1
  {
    var w, sum := g.Scale(), Proposed(g, pi, x) + x * g.kp + g.Half();
    SumIsBounded(g, X, pi, x);
    FloorBound(sum, w, g.yMin - g.bias - m);
    FloorBound(sum, w, g.yMax - g.bias + m + 2);
    Difference(g.yMin - g.bias, m, w);
    Difference(g.yMax - g.bias + 1, -m - 1, w);
    Difference(0, -m - 1, w);
    Difference(m, -1, w);
  }

  lemma Difference(a: int, b: int, w: int)
    ensures (a - b) * w == a * w - b * w
  {
  }

  const FRACBITS: nat := 12
  const HELPER_CLAMP: int := 150_000

  /** The helper's controller on a board with `dac` bits of DAC, `div` of them below the integer: the
      bias is put at that end of the range from which the loop locks on a positive offset. */
  function HelperGains(kp: int, ki: int, dac: nat, div: nat, reverse: bool): Gains
    requires div <= FRACBITS
  {
    var lo, hi := 5 * Pow2(div), Pow2(dac) - 5 * Pow2(div);
    Gains(ki, kp, FRACBITS - div, if reverse then lo else hi, lo, hi, true)
  }

  lemma {:induction false} Pow2Monotone(a: nat, b: nat)
    requires a <= b
    ensures Pow2(a) <= Pow2(b)
  {
    if a < b { Pow2Monotone(a, b - 1); }
  }

  lemma {:induction false} Pow2Product(a: nat, b: nat)
    ensures Pow2(a + b) == Pow2(a) * Pow2(b)
  {
    if b > 0 {
      Pow2Product(a, b - 1);
      Regroup(Pow2(a), Pow2(b - 1));
    }
  }

  lemma Regroup(a: int, b: int)
    ensures a * (2 * b) == 2 * (a * b)
  {
  }

  lemma Powers()
    ensures Pow2(3) == 8 && Pow2(8) == 256 && Pow2(11) == 2048 && Pow2(12) == 4096 && Pow2(24) == 0x100_0000
  {
    assert Pow2(1) == 2 && Pow2(2) == 4 && Pow2(3) == 8 && Pow2(4) == 16;
    Pow2Product(4, 4);
    Pow2Product(8, 3);
    Pow2Product(8, 4);
    Pow2Product(12, 12);
  }

  /** The boards: a DAC of 16 to 24 bits of which at most 8 are fractional. */
  predicate Board(dac: nat, div: nat) {
    16 <= dac <= 24 && div <= 8
  }

  lemma BoardGains(kp: int, ki: int, dac: nat, div: nat, reverse: bool)
    requires Board(dac, div)
    ensures var g := HelperGains(kp, ki, dac, div, reverse);
            && g.Valid() && g.Centred() && 0 < g.yMin && g.yMax < 0x100_0000 && 16 <= g.Scale() <= 4096 && g.Half() <= 2048
  {
    Powers();
    Pow2Monotone(div, 8);
    Pow2Monotone(dac, 24);
    Pow2Product(8, 8);
    Pow2Monotone(16, dac);
    assert Pow2(4) == 16;
    Pow2Monotone(4, FRACBITS - div);
    Pow2Monotone(FRACBITS - div, 12);
    Pow2Monotone(FRACBITS - div - 1, 11);
  }

  /** The helper's default gains, of either sign. */
  predicate HelperDefault(kp: int, ki: int) {
    Abs(kp) <= 150 && Abs(ki) <= 2
  }

  /** On every board, for either bias and either sign of the gains, no run of the helper truncates: the
      sum fits in 64 bits and the output, before clamping, in 32. */
  lemma HelperNeverTruncates(kp: int, ki: int, dac: nat, div: nat, reverse: bool, xs: seq<int>, x: int)
    requires HelperDefault(kp, ki) && Board(dac, div)
    requires forall i :: 0 <= i < |xs| ==> Abs(xs[i]) <= HELPER_CLAMP
    requires Abs(x) <= HELPER_CLAMP
    ensures var g := HelperGains(kp, ki, dac, div, reverse);
            && g.Valid()
            && -0x8000_0000_0000_0000 <= Proposed(g, Run(g, xs), x) + x * g.kp + g.Half() < 0x8000_0000_0000_0000
            && -0x8000_0000 <= Raw(g, Run(g, xs), x) < 0x8000_0000
            && g.yMin <= Run(g, xs).y <= g.yMax
  {
    var g := HelperGains(kp, ki, dac, div, reverse);
    BoardGains(kp, ki, dac, div, reverse);
    RunIsBounded(g, HELPER_CLAMP, xs);
    var pi := Run(g, xs);
    HelperSum(g, pi, x);
    MulMonotone(16, g.Scale(), 2_850_000);
    NeverTruncates(g, HELPER_CLAMP, pi, x, 2_850_000);
  }

  lemma HelperSum(g: Gains, pi: Pi, x: int)
    requires g.Valid() && g.Centred() && 0 < g.yMin && g.yMax < 0x100_0000 && 16 <= g.Scale() <= 4096 && g.Half() <= 2048
    requires HelperDefault(g.kp, g.ki) && Abs(x) <= HELPER_CLAMP && Bounded(g, HELPER_CLAMP, pi)
    ensures -0x8000_0000_0000_0000 <= Proposed(g, pi, x) + x * g.kp + g.Half() < 0x8000_0000_0000_0000
  {
    SumIsBounded(g, HELPER_CLAMP, pi, x);
    var w := g.Scale();
    MulMonotone(-0x100_0000, g.yMin - g.bias, w);
    MulMonotone(g.yMax - g.bias + 1, 0x100_0000, w);
  }

  /** `spll_pi_t` */
  class SpllPi {
    var gains: Gains
    var integrator: int
    var x: int
    var y: int

    constructor (g: Gains)
      requires g.Valid()
      ensures gains == g && View() == Init(g)
    {
      gains := g;
      integrator, x, y := 0, 0, g.bias;
    }

    function View(): Pi
      reads this
    {
      Pi(integrator, y)
    }

    method PiInit()
      modifies this`integrator, this`y
      ensures View() == Init(gains) && integrator == 0 && y == gains.bias
    {
      integrator := 0;
      y := gains.bias;
    }

    method PiUpdate(input: int) returns (out: int)
      requires gains.Valid()
      modifies this`integrator, this`x, this`y
      ensures View() == Update(gains, old(View()), input) && out == y && x == input
    {
      x := input;
      var iNew := integrator + gains.ki * input;
      var sum := iNew + input * gains.kp + Pow2(gains.shift - 1);
      out := sum / Pow2(gains.shift) + gains.bias;
      if out < gains.yMin {
        out := gains.yMin;
        if (gains.antiWindup && iNew > integrator) || !gains.antiWindup {
          integrator := iNew;
        }
      } else if out > gains.yMax {
        out := gains.yMax;
        if (gains.antiWindup && iNew < integrator) || !gains.antiWindup {
          integrator := iNew;
        }
      } else {
        integrator := iNew;
      }
      y := out;
    }
  }
}
