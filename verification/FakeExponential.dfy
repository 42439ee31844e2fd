/** The blob gas price: an integer Taylor expansion (the "Helpers" section of EIP-4844). */
module FakeExponentials {
  import opened Base

  /** How far the i-th factor is from shrinking the accumulator. */
  function Excess(numerator: nat, denominator: nat, i: nat): nat {
    if denominator * i <= numerator then numerator - denominator * i + 1 else 0
  }

  /** Once denominator * i exceeds the numerator, the next accumulator is smaller than a positive one. */
  lemma {:induction false} Shrinks(acc: int, numerator: nat, denominator: nat, i: nat)
    requires acc > 0 && denominator > 0 && i > 0 && denominator * i > numerator
    ensures 0 <= acc * numerator / (denominator * i) < acc
  {
    var d := denominator * i;
    assert acc * numerator <= acc * (d - 1) == acc * d - acc < acc * d;
    DivideBelow(acc * numerator, acc, d);
  }

  lemma {:induction false} DivideBelow(n: nat, bound: nat, d: nat)
    requires d > 0 && n < bound * d
    ensures n / d < bound
  {
    var q := n / d;
    assert n == q * d + n % d;
    assert q >= bound ==> q * d >= bound * d;
  }

  lemma {:induction false} NextExcess(numerator: nat, denominator: nat, i: nat)
    requires denominator > 0
    ensures Excess(numerator, denominator, i) > 0 ==>
              Excess(numerator, denominator, i + 1) < Excess(numerator, denominator, i)
    ensures Excess(numerator, denominator, i) == 0 ==> Excess(numerator, denominator, i + 1) == 0
  {
    assert denominator * (i + 1) == denominator * i + denominator;
  }

  function Next(acc: int, numerator: nat, denominator: nat, i: nat): int
    requires denominator > 0 && i > 0
  {
    acc * numerator / (denominator * i)
  }

  /** The sum of the accumulators from the i-th on. */
  function Output(acc: int, numerator: nat, denominator: nat, i: nat): (n: nat)
    requires denominator > 0 && i > 0
    ensures n >= acc
    decreases Excess(numerator, denominator, i), if acc > 0 then acc else 0
  {
    if acc <= 0 then 0
    else
      NextExcess(numerator, denominator, i);
      if Excess(numerator, denominator, i) == 0 then
        Shrinks(acc, numerator, denominator, i);
        acc + Output(Next(acc, numerator, denominator, i), numerator, denominator, i + 1)
      else
        acc + Output(Next(acc, numerator, denominator, i), numerator, denominator, i + 1)
  }

  function Value(factor: int, numerator: nat, denominator: nat): nat
    requires denominator > 0
  {
    Output(factor * denominator, numerator, denominator, 1) / denominator
  }

  method FakeExponential(factor: int, numerator: nat, denominator: nat) returns (r: nat)
    requires denominator > 0
    ensures r == Value(factor, numerator, denominator)
  {
    var i, output, accumulator := 1, 0, factor * denominator;
    while accumulator > 0
      invariant i > 0
      invariant output + Output(accumulator, numerator, denominator, i) ==
                Output(factor * denominator, numerator, denominator, 1)
      decreases Excess(numerator, denominator, i), accumulator
    {
      NextExcess(numerator, denominator, i);
      if Excess(numerator, denominator, i) == 0 {
        Shrinks(accumulator, numerator, denominator, i);
      }
      output := output + accumulator;
      accumulator := accumulator * numerator / (denominator * i);
      i := i + 1;
    }
    r := output / denominator;
  }

  const MIN_BLOB_GAS: nat := 1
  const BLOB_GAS_PRICE_UPDATE_FRACTION: nat := 3338477

  /** The hardfork's parameters, or the defaults where it has none. */
  method ComputeBlobGasPrice(excessBlobGas: nat, minBlobGas: Option<nat>, updateFraction: Option<nat>)
    returns (price: nat)
    requires updateFraction.Some? ==> updateFraction.value > 0
    ensures price == Value(if minBlobGas.Some? then minBlobGas.value else 1, excessBlobGas,
                           if updateFraction.Some? then updateFraction.value else 3338477)
  {
    price := FakeExponential(if minBlobGas.Some? then minBlobGas.value else MIN_BLOB_GAS, excessBlobGas,
                             if updateFraction.Some? then updateFraction.value else BLOB_GAS_PRICE_UPDATE_FRACTION);
  }

  // --------------------------------------------------------------------------------- its bounds

  /** The price never falls below the factor. */
  lemma {:induction false} AtLeastFactor(factor: int, numerator: nat, denominator: nat)
    requires denominator > 0
    ensures Value(factor, numerator, denominator) >= factor
  {
    DivideMonotone(factor * denominator, Output(factor * denominator, numerator, denominator, 1), denominator);
    WholeQuotient(factor, denominator);
  }

  lemma {:induction false} WholeQuotient(a: int, d: nat)
    requires d > 0
    ensures a * d / d == a
  {
    var q := a * d / d;
    assert a * d == q * d + a * d % d;
    assert q > a ==> q * d >= (a + 1) * d == a * d + d;
    assert q < a ==> q * d <= (a - 1) * d == a * d - d;
  }

  lemma {:induction false} DivideMonotone(a: int, b: int, d: nat)
    requires d > 0 && a <= b
    ensures a / d <= b / d
  {
    var p, q := a / d, b / d;
    assert a == p * d + a % d && b == q * d + b % d;
    assert p >= q + 1 ==> p * d >= (q + 1) * d == q * d + d;
  }

  lemma {:induction false} NextMonotone(acc: nat, acc': nat, numerator: nat, numerator': nat, denominator: nat, i: nat)
    requires denominator > 0 && i > 0 && acc <= acc' && numerator <= numerator'
    ensures 0 <= Next(acc, numerator, denominator, i) <= Next(acc', numerator', denominator, i)
  {
    assert acc * numerator <= acc' * numerator <= acc' * numerator';
    DivideMonotone(acc * numerator, acc' * numerator', denominator * i);
  }

  lemma {:induction false} OutputMonotone(acc: int, acc': int, numerator: nat, numerator': nat, denominator: nat,
                                          i: nat)
    requires denominator > 0 && i > 0 && acc <= acc' && numerator <= numerator'
    ensures Output(acc, numerator, denominator, i) <= Output(acc', numerator', denominator, i)
    decreases Excess(numerator', denominator, i), if acc' > 0 then acc' else 0
  {
    if acc > 0 {
      NextExcess(numerator', denominator, i);
      if Excess(numerator', denominator, i) == 0 {
        Shrinks(acc', numerator', denominator, i);
      }
      NextMonotone(acc, acc', numerator, numerator', denominator, i);
      var next, next' := Next(acc, numerator, denominator, i), Next(acc', numerator', denominator, i);
      OutputMonotone(next, next', numerator, numerator', denominator, i + 1);
    }
  }

  /** More excess gas or a higher factor never makes the price lower. */
  lemma {:induction false} Monotone(factor: int, factor': int, numerator: nat, numerator': nat, denominator: nat)
    requires denominator > 0 && factor <= factor' && numerator <= numerator'
    ensures Value(factor, numerator, denominator) <= Value(factor', numerator', denominator)
  {
    assert factor * denominator <= factor' * denominator;
    OutputMonotone(factor * denominator, factor' * denominator, numerator, numerator', denominator, 1);
    DivideMonotone(Output(factor * denominator, numerator, denominator, 1),
                   Output(factor' * denominator, numerator', denominator, 1), denominator);
  }

  // ---------------------------------------------------------------------- the series it truncates

  function Pow(x: real, n: nat): real {
    if n == 0 then 1.0 else x * Pow(x, n - 1)
  }

  function Factorial(n: nat): (f: nat)
    ensures f > 0
  {
    if n == 0 then 1 else n * Factorial(n - 1)
  }

  /** The n-th term of the Taylor series of the exponential at x. */
  function TaylorTerm(x: real, n: nat): real {
    Pow(x, n) / Factorial(n) as real
  }

  function TaylorSum(x: real, n: nat): real {
    if n == 0 then 0.0 else TaylorSum(x, n - 1) + TaylorTerm(x, n - 1)
  }

  /** How many terms the loop adds before the accumulator runs out. */
  function Terms(acc: int, numerator: nat, denominator: nat, i: nat): nat
    requires denominator > 0 && i > 0
    decreases Excess(numerator, denominator, i), if acc > 0 then acc else 0
  {
    if acc <= 0 then 0
    else
      NextExcess(numerator, denominator, i);
      if Excess(numerator, denominator, i) == 0 then
        Shrinks(acc, numerator, denominator, i);
        1 + Terms(Next(acc, numerator, denominator, i), numerator, denominator, i + 1)
      else
        1 + Terms(Next(acc, numerator, denominator, i), numerator, denominator, i + 1)
  }

  lemma {:induction false} PowStep(x: real, n: nat)
    ensures Pow(x, n + 1) == x * Pow(x, n)
  {
  }

  lemma {:induction false} FactorialStep(n: nat)
    ensures Factorial(n + 1) as real == (n + 1) as real * Factorial(n) as real
  {
    hide Factorial;
    FactorialIs(n);
  }

  lemma {:induction false} FactorialIs(n: nat)
    ensures Factorial(n + 1) == (n + 1) * Factorial(n)
  {
  }

  lemma {:induction false} NextTerm(x: real, n: nat)
    ensures TaylorTerm(x, n + 1) == TaylorTerm(x, n) * x / (n + 1) as real
  {
    PowStep(x, n);
    FactorialStep(n);
    hide Pow, Factorial;
    QuotientOfProducts(x, Pow(x, n), (n + 1) as real, Factorial(n) as real);
  }

  lemma {:induction false} QuotientOfProducts(x: real, p: real, m: real, f: real)
    requires m > 0.0 && f > 0.0
    ensures m * f > 0.0 && x * p / (m * f) == p / f * x / m
  {
    var q := p / f;
    assert p == q * f;
    assert x * p == x * q * f;
    var r := q * x / m;
    assert q * x == r * m;
    assert x * p == r * m * f == r * (m * f);
  }

  /** The integer step rounds down what the exact step gives. */
  lemma {:induction false} NextBelow(acc: nat, numerator: nat, denominator: nat, i: nat, exact: real)
    requires denominator > 0 && i > 0 && acc as real <= exact
    ensures Next(acc, numerator, denominator, i) as real <=
            exact * (numerator as real / denominator as real) / i as real
  {
    var q, d := Next(acc, numerator, denominator, i), denominator * i;
    assert q * d <= acc * numerator;
    var n, e, j := numerator as real, denominator as real, i as real;
    assert d as real == e * j;
    assert q as real * (e * j) == (q * d) as real <= (acc * numerator) as real == acc as real * n <= exact * n;
    var r := exact * (n / e) / j;
    assert exact * (n / e) == r * j;
    assert exact * n == exact * (n / e) * e == r * j * e == r * (e * j);
    CancelFactor(q as real, r, e * j);
  }

  lemma {:induction false} CancelFactor(a: real, b: real, d: real)
    requires d > 0.0 && a * d <= b * d
    ensures a <= b
  {
    assert a > b ==> (a - b) * d > 0.0;
  }

  lemma {:induction false} Distribute(scale: real, t: real, sum: real, s: real)
    ensures scale * t + scale * (sum - (s + t)) == scale * (sum - s)
  {
  }

  lemma {:induction false} Regroup(a: real, b: real, x: real, d: real)
    requires d > 0.0
    ensures a * b * x / d == a * (b * x / d)
  {
    var q := b * x / d;
    assert b * x == q * d;
    assert a * b * x == a * (b * x) == a * (q * d) == a * q * d;
  }

  lemma {:induction false} NextSum(x: real, n: nat)
    ensures TaylorSum(x, n + 1) == TaylorSum(x, n) + TaylorTerm(x, n)
  {
  }

  /** Every accumulator stays below the exact term it approximates, so their sum stays below the exact sum. */
  lemma {:induction false} OutputBelow(acc: nat, numerator: nat, denominator: nat, i: nat, scale: real)
    requires denominator > 0 && i > 0
    requires var x := numerator as real / denominator as real; acc as real <= scale * TaylorTerm(x, i - 1)
    ensures var x := numerator as real / denominator as real;
            Output(acc, numerator, denominator, i) as real <=
            scale * (TaylorSum(x, i - 1 + Terms(acc, numerator, denominator, i)) - TaylorSum(x, i - 1))
    decreases Excess(numerator, denominator, i), acc
  {
    hide TaylorTerm, TaylorSum, Next;
    var x := numerator as real / denominator as real;
    if acc > 0 {
      NextExcess(numerator, denominator, i);
      if Excess(numerator, denominator, i) == 0 {
        NextShrinks(acc, numerator, denominator, i);
      }
      var next, t, s := Next(acc, numerator, denominator, i), TaylorTerm(x, i - 1), TaylorSum(x, i - 1);
      NextMonotone(0, acc, 0, numerator, denominator, i);
      NextBelow(acc, numerator, denominator, i, scale * t);
      NextTerm(x, i - 1);
      NextSum(x, i - 1);
      Regroup(scale, t, x, i as real);
      OutputBelow(next, numerator, denominator, i + 1, scale);
      Distribute(scale, t, TaylorSum(x, i + Terms(next, numerator, denominator, i + 1)), s);
    }
  }

  lemma {:induction false} NextShrinks(acc: int, numerator: nat, denominator: nat, i: nat)
    requires acc > 0 && denominator > 0 && i > 0 && Excess(numerator, denominator, i) == 0
    ensures 0 <= Next(acc, numerator, denominator, i) < acc
  {
    Shrinks(acc, numerator, denominator, i);
  }

  lemma {:induction false} FirstTerm(x: real)
    ensures TaylorTerm(x, 0) == 1.0 && TaylorSum(x, 0) == 0.0
  {
  }

  /** The result never exceeds factor times the Taylor sum over as many terms as the loop adds. */
  lemma {:induction false} BelowTaylorSum(factor: nat, numerator: nat, denominator: nat)
    requires denominator > 0
    ensures var n, x := Terms(factor * denominator, numerator, denominator, 1), numerator as real / denominator as real;
            Value(factor, numerator, denominator) as real <= factor as real * TaylorSum(x, n)
  {
    hide TaylorTerm, TaylorSum, Output, Terms;
    var acc, x := factor * denominator, numerator as real / denominator as real;
    var n := Terms(acc, numerator, denominator, 1);
    var sum, f, d := TaylorSum(x, n), factor as real, denominator as real;
    FirstTerm(x);
    assert acc as real == f * d;
    OutputBelow(acc, numerator, denominator, 1, f * d);
    ScaledDown(Output(acc, numerator, denominator, 1), denominator, f, sum);
  }

  lemma {:induction false} ScaledDown(output: nat, denominator: nat, factor: real, sum: real)
    requires denominator > 0 && output as real <= factor * denominator as real * (sum - 0.0)
    ensures (output / denominator) as real <= factor * sum
  {
    var value, d := output / denominator, denominator as real;
    assert value * denominator <= output;
    assert value as real * d == (value * denominator) as real;
    assert factor * d * (sum - 0.0) == factor * sum * d;
    CancelFactor(value as real, factor * sum, d);
  }

  // ------------------------------------------------------------------------------ how little it loses

  /** The sum of the first n accumulators from the i-th on. */
  function Partial(acc: nat, numerator: nat, denominator: nat, i: nat, n: nat): nat
    requires denominator > 0 && i > 0
    decreases n
  {
    if n == 0 then 0
    else
      NextMonotone(0, acc, 0, numerator, denominator, i);
      acc + Partial(Next(acc, numerator, denominator, i), numerator, denominator, i + 1, n - 1)
  }

  lemma {:induction false} NothingFromZero(numerator: nat, denominator: nat, i: nat, n: nat)
    requires denominator > 0 && i > 0
    ensures Partial(0, numerator, denominator, i, n) == 0
    decreases n
  {
    if n > 0 {
      assert 0 * numerator == 0;
      NothingFromZero(numerator, denominator, i + 1, n - 1);
    }
  }

  lemma {:induction false} PartialWithinOutput(acc: nat, numerator: nat, denominator: nat, i: nat, n: nat)
    requires denominator > 0 && i > 0
    ensures Partial(acc, numerator, denominator, i, n) <= Output(acc, numerator, denominator, i)
    decreases n
  {
    hide Next;
    if n > 0 {
      if acc == 0 {
        NothingFromZero(numerator, denominator, i, n);
      } else {
        NextMonotone(0, acc, 0, numerator, denominator, i);
        PartialWithinOutput(Next(acc, numerator, denominator, i), numerator, denominator, i + 1, n - 1);
      }
    }
  }

  /** What one unit at step i grows to over n steps, without rounding. */
  function Growth(x: real, i: nat, n: nat): (g: real)
    requires i > 0
    decreases n
  {
    if n == 0 then 0.0 else 1.0 + x / i as real * Growth(x, i + 1, n - 1)
  }

  lemma {:induction false} GrowthNext(x: real, i: nat, n: nat)
    requires i > 0
    ensures Growth(x, i, 0) == 0.0 && Growth(x, i, n + 1) == 1.0 + x / i as real * Growth(x, i + 1, n)
  {
  }

  lemma {:induction false} SmallerStep(x: real, i: nat, a: real, b: real)
    requires x >= 0.0 && i > 0 && 0.0 <= a <= b
    ensures 0.0 <= x / (i + 1) as real * a <= x / i as real * b
  {
    var p, q := x / (i + 1) as real, x / i as real;
    assert p * (i as real) + p == p * (i + 1) as real == x == q * i as real;
    assert p >= 0.0 && q >= 0.0;
    assert p <= q by {
      CancelFactor(p, q, i as real);
    }
    assert p * a <= q * a <= q * b;
  }

  /** Growth only slows down with i, and only rises with the number of steps. */
  lemma {:induction false} GrowthOrder(x: real, i: nat, n: nat)
    requires x >= 0.0 && i > 0
    ensures 0.0 <= Growth(x, i + 1, n) <= Growth(x, i, n) <= Growth(x, i, n + 1)
    decreases n
  {
    hide Growth;
    GrowthNext(x, i, n);
    if n > 0 {
      GrowthNext(x, i, n - 1);
      GrowthNext(x, i + 1, n - 1);
      GrowthOrder(x, i + 1, n - 1);
      SmallerStep(x, i, Growth(x, i + 2, n - 1), Growth(x, i + 1, n - 1));
      GrowthRises(x / i as real, Growth(x, i + 1, n - 1), Growth(x, i + 1, n));
    } else {
      GrowthNext(x, i + 1, 0);
      assert x / i as real * 0.0 == 0.0;
    }
  }

  lemma {:induction false} GrowthRises(q: real, a: real, b: real)
    requires q >= 0.0 && a <= b
    ensures q * a <= q * b
  {
  }

  lemma {:induction false} GrowthFromOne(x: real, i: nat, n: nat)
    requires x >= 0.0 && i > 0
    ensures 0.0 <= Growth(x, i, n) <= Growth(x, 1, n)
  {
    if i > 1 {
      GrowthFromOne(x, i - 1, n);
      GrowthOrder(x, i - 1, n);
    } else {
      GrowthOrder(x, 1, n);
    }
  }

  /** Growth from the first step is the Taylor sum. */
  lemma {:induction false} GrowthIsSeries(x: real, k: nat, n: nat)
    ensures TaylorTerm(x, k) * Growth(x, k + 1, n) == TaylorSum(x, k + n) - TaylorSum(x, k)
    decreases n
  {
    hide TaylorTerm, TaylorSum, Growth;
    var t := TaylorTerm(x, k);
    GrowthNext(x, k + 1, if n > 0 then n - 1 else 0);
    if n > 0 {
      GrowthIsSeries(x, k + 1, n - 1);
      NextTerm(x, k);
      NextSum(x, k);
      var g, j := Growth(x, k + 2, n - 1), (k + 1) as real;
      Reorder(t, x, j, g);
      OnePlus(t, x / j * g);
    }
  }

  lemma {:induction false} OnePlus(t: real, a: real)
    ensures t * (1.0 + a) == t + t * a
  {
  }

  lemma {:induction false} Reorder(t: real, x: real, j: real, g: real)
    requires j > 0.0
    ensures t * (x / j * g) == t * x / j * g
  {
    var q := x / j;
    assert x == q * j;
    assert t * x == t * q * j;
    assert t * x / j == t * q;
  }

  lemma {:induction false} SeriesIsGrowth(x: real, n: nat)
    ensures Growth(x, 1, n) == TaylorSum(x, n)
  {
    hide TaylorTerm, TaylorSum;
    GrowthIsSeries(x, 0, n);
    FirstTerm(x);
  }

  /** Rounding down a step loses less than one. */
  lemma {:induction false} NextLoses(acc: nat, numerator: nat, denominator: nat, i: nat)
    requires denominator > 0 && i > 0
    ensures Next(acc, numerator, denominator, i) as real >=
            acc as real * (numerator as real / denominator as real / i as real) - 1.0
  {
    var q, d := Next(acc, numerator, denominator, i), denominator * i;
    assert (q + 1) * d > acc * numerator by {
      assert acc * numerator == q * d + acc * numerator % d;
      assert (q + 1) * d == q * d + d;
    }
    assert d as real == denominator as real * i as real;
    assert ((q + 1) * d) as real == (q + 1) as real * d as real;
    assert (acc * numerator) as real == acc as real * numerator as real;
    QuotientLoses((q + 1) as real, acc as real, numerator as real, denominator as real, i as real);
  }

  lemma {:induction false} QuotientLoses(q: real, acc: real, n: real, e: real, j: real)
    requires e > 0.0 && j > 0.0 && acc * n <= q * (e * j)
    ensures acc * (n / e / j) <= q
  {
    var p := n / e;
    var y := p / j;
    assert n == p * e && p == y * j;
    assert n == y * j * e == y * (e * j);
    assert acc * n == acc * (y * (e * j)) == acc * y * (e * j);
    assert e * j > 0.0;
    CancelFactor(acc * y, q, e * j);
  }

  lemma {:induction false} PartialAbove(acc: nat, numerator: nat, denominator: nat, i: nat, n: nat)
    requires denominator > 0 && i > 0
    ensures var x := numerator as real / denominator as real;
            Partial(acc, numerator, denominator, i, n) as real >=
            acc as real * Growth(x, i, n) - n as real * Growth(x, 1, n)
    decreases n
  {
    hide Next;
    var x := numerator as real / denominator as real;
    if n > 0 {
      NextMonotone(0, acc, 0, numerator, denominator, i);
      var next := Next(acc, numerator, denominator, i);
      PartialAbove(next, numerator, denominator, i + 1, n - 1);
      NextLoses(acc, numerator, denominator, i);
      GrowthFromOne(x, i + 1, n - 1);
      GrowthOrder(x, 1, n - 1);
      StepAbove(acc as real, next as real, x / i as real, Growth(x, i + 1, n - 1), Growth(x, 1, n - 1), Growth(x, 1, n),
                (n - 1) as real);
    }
  }

  lemma {:induction false} StepAbove(acc: real, next: real, y: real, g: real, g1: real, g2: real, m: real)
    requires next >= acc * y - 1.0 && 0.0 <= g <= g1 <= g2 && m >= 0.0
    ensures acc + (next * g - m * g1) >= acc * (1.0 + y * g) - (m + 1.0) * g2
  {
    GrowthRises(g, acc * y - 1.0, next);
    GrowthRises(m, g1, g2);
    var a := acc * y;
    assert (a - 1.0) * g == a * g - g;
    assert acc * (1.0 + y * g) == acc + acc * (y * g);
    assert acc * (y * g) == a * g;
    assert (m + 1.0) * g2 == m * g2 + g2;
    assert next * g == g * next && (a - 1.0) * g == g * (a - 1.0);
  }

  /** Each step loses less than one, which grows to at most the series: the other side of the error bound. */
  lemma {:induction false} AboveTaylorSum(factor: nat, numerator: nat, denominator: nat, n: nat)
    requires denominator > 0
    ensures var x, output := numerator as real / denominator as real,
                             Output(factor * denominator, numerator, denominator, 1) as real;
            && factor as real * denominator as real * TaylorSum(x, n) <= output + n as real * TaylorSum(x, n)
            && output < (Value(factor, numerator, denominator) + 1) as real * denominator as real
  {
    hide TaylorSum, Output, Partial, Growth;
    var acc, x := factor * denominator, numerator as real / denominator as real;
    PartialAbove(acc, numerator, denominator, 1, n);
    PartialWithinOutput(acc, numerator, denominator, 1, n);
    SeriesIsGrowth(x, n);
    assert acc as real == factor as real * denominator as real;
    RoundedDown(Output(acc, numerator, denominator, 1), denominator);
  }

  lemma {:induction false} RoundedDown(output: nat, d: nat)
    requires d > 0
    ensures output as real < (output / d + 1) as real * d as real
  {
    var q := output / d;
    assert output == q * d + output % d;
    assert (q + 1) * d == q * d + d > output;
    assert ((q + 1) * d) as real == (q + 1) as real * d as real;
  }

  lemma {:induction false} SeriesForm(x: real, n: nat)
    ensures Pow(x, 0) == 1.0 && Pow(x, n + 1) == x * Pow(x, n)
    ensures Factorial(0) == 1 && Factorial(n + 1) == (n + 1) * Factorial(n)
    ensures TaylorSum(x, 0) == 0.0 && TaylorSum(x, n + 1) == TaylorSum(x, n) + Pow(x, n) / Factorial(n) as real
  {
  }

  // ---------------------------------------------------------------------------------- step by step

  function Sum(s: seq<int>): int {
    if s == [] then 0 else s[0] + Sum(s[1..])
  }

  /** The next accumulator is the whole quotient of this one at the i-th step. */
  predicate Quotient(next: int, acc: int, numerator: nat, denominator: nat, i: nat) {
    next * (denominator * i) <= acc * numerator < (next + 1) * (denominator * i)
  }

  /** What follows the k-th accumulator: the next one, and in the end 0. */
  function Following(accs: seq<int>, k: nat): int {
    if k + 1 < |accs| then accs[k + 1] else 0
  }

  /** Positive accumulators, each with its whole quotient after it. */
  ghost predicate Trace(accs: seq<int>, numerator: nat, denominator: nat, i: nat) {
    forall k :: 0 <= k < |accs| ==>
      accs[k] > 0 && Quotient(Following(accs, k), accs[k], numerator, denominator, i + k)
  }

  lemma {:induction false} OutputTrace(acc: int, numerator: nat, denominator: nat, i: nat) returns (accs: seq<int>)
    requires denominator > 0 && i > 0
    ensures Trace(accs, numerator, denominator, i)
    ensures if acc > 0 then accs != [] && accs[0] == acc else accs == []
    ensures Sum(accs) == Output(acc, numerator, denominator, i)
    decreases Excess(numerator, denominator, i), if acc > 0 then acc else 0
  {
    accs := [];
    if acc > 0 {
      NextExcess(numerator, denominator, i);
      if Excess(numerator, denominator, i) == 0 {
        NextShrinks(acc, numerator, denominator, i);
      }
      var next := Next(acc, numerator, denominator, i);
      NextMonotone(0, acc, 0, numerator, denominator, i);
      QuotientBounds(acc * numerator, denominator * i);
      var rest := OutputTrace(next, numerator, denominator, i + 1);
      accs := [acc] + rest;
      hide Next, Excess, Quotient;
      assert accs[1..] == rest;
      TracePrepend(acc, next, rest, numerator, denominator, i);
    }
  }

  lemma {:induction false} QuotientBounds(n: nat, d: nat)
    requires d > 0
    ensures n / d * d <= n < (n / d + 1) * d
  {
  }

  lemma {:induction false} TracePrepend(acc: int, next: int, rest: seq<int>, numerator: nat, denominator: nat, i: nat)
    requires Trace(rest, numerator, denominator, i + 1) && acc > 0 && next >= 0
    requires if next > 0 then rest != [] && rest[0] == next else rest == []
    requires Quotient(next, acc, numerator, denominator, i)
    ensures Trace([acc] + rest, numerator, denominator, i)
  {
    hide Quotient;
    var accs := [acc] + rest;
    forall k | 0 <= k < |accs|
      ensures accs[k] > 0 && Quotient(Following(accs, k), accs[k], numerator, denominator, i + k) {
      if k > 0 {
        assert accs[k] == rest[k - 1] && Following(accs, k) == Following(rest, k - 1) && i + 1 + (k - 1) == i + k;
      }
    }
  }

  /** The result, step by step: the accumulators, and the whole quotient of their sum. */
  lemma {:induction false} ValueTrace(factor: int, numerator: nat, denominator: nat) returns (accs: seq<int>)
    requires denominator > 0
    ensures if factor > 0 then accs != [] && accs[0] == factor * denominator else accs == []
    ensures forall k :: 0 <= k < |accs| ==>
              var d, next := denominator * (1 + k), if k + 1 < |accs| then accs[k + 1] else 0;
              accs[k] > 0 && next * d <= accs[k] * numerator < (next + 1) * d
    ensures var v := Value(factor, numerator, denominator); v * denominator <= Sum(accs) < (v + 1) * denominator
  {
    accs := OutputTrace(factor * denominator, numerator, denominator, 1);
    QuotientBounds(Output(factor * denominator, numerator, denominator, 1), denominator);
    assert factor > 0 <==> factor * denominator > 0 by {
      assert factor > 0 ==> factor * denominator >= denominator;
      assert factor <= 0 ==> factor * denominator <= 0;
    }
    forall k | 0 <= k < |accs|
      ensures var d, next := denominator * (1 + k), if k + 1 < |accs| then accs[k + 1] else 0;
              accs[k] > 0 && next * d <= accs[k] * numerator < (next + 1) * d {
      assert Quotient(Following(accs, k), accs[k], numerator, denominator, 1 + k);
    }
  }
}
