/** The escape-time counter of the renderer: iterate `z <- z^2 + c` from
    `z = c` and count, with the source's pre-increment convention, until
    `|z|^2 >= 4` or the iteration budget is reached. */
module Escape {

  datatype Complex = Complex(re: real, im: real)

  function Mag2(z: Complex): real { z.re * z.re + z.im * z.im }

  /** One step `z^2 + c`, written as the renderer's loop body computes it. */
  function Next(z: Complex, c: Complex): Complex
  {
    Complex(z.re * z.re - z.im * z.im + c.re, 2.0 * z.re * z.im + c.im)
  }

  /** Complex addition and multiplication, as textbooks define them. */
  function Add(a: Complex, b: Complex): Complex
  {
    Complex(a.re + b.re, a.im + b.im)
  }

  function Mul(a: Complex, b: Complex): Complex
  {
    Complex(a.re * b.re - a.im * b.im, a.re * b.im + a.im * b.re)
  }

  /** The loop body's real arithmetic is the complex map `z * z + c`. */
  lemma NextIsSquarePlus(z: Complex, c: Complex)
    ensures Next(z, c) == Add(Mul(z, z), c)
  {
  }

  /** The squared magnitude is multiplicative, so squaring `z` squares
      `|z|^2`: the escape test on `x2 + y2` sees `|z|^2` of the point before
      the step. */
  lemma MulMagnitude(a: Complex, b: Complex)
    ensures Mag2(Mul(a, b)) == Mag2(a) * Mag2(b)
  {
    var p, q, r, s := a.re, a.im, b.re, b.im;
    calc {
      Mag2(Mul(a, b));
      (p * r - q * s) * (p * r - q * s) + (p * s + q * r) * (p * s + q * r);
      p * p * (r * r + s * s) + q * q * (r * r + s * s);
      (p * p + q * q) * (r * r + s * s);
    }
  }

  /** A loop step with `c = 0` squares the point's squared magnitude, the
      `x2 + y2` the escape test reads. */
  lemma ZeroStepSquares(z: Complex)
    ensures Mag2(Next(z, Complex(0.0, 0.0))) == Mag2(z) * Mag2(z)
  {
    NextIsSquarePlus(z, Complex(0.0, 0.0));
    MulMagnitude(z, z);
  }

  /** The orbit of `c`: `Orbit(c, 0) == c`, `Orbit(c, k + 1) == Next(Orbit(c, k), c)`. */
  function Orbit(c: Complex, k: nat): Complex
  {
    if k == 0 then c else Next(Orbit(c, k - 1), c)
  }

  function Max(a: int, b: int): int { if a < b then b else a }

  /** The first `j` points of the orbit, `Orbit(c, 0 .. j - 1)`, stay inside
      the circle `|z|^2 < 4`. */
  predicate StaysInside(c: Complex, j: nat)
  {
    j == 0 || (StaysInside(c, j - 1) && Mag2(Orbit(c, j - 1)) < 4.0)
  }

  lemma {:induction false} StaysInsideAt(c: Complex, j: nat, k: nat)
    requires StaysInside(c, j) && k < j
    ensures Mag2(Orbit(c, k)) < 4.0
  {
    if k < j - 1 {
      StaysInsideAt(c, j - 1, k);
    }
  }

  /** `n` is the count the renderer reports for `c` with budget `maxIterations`:
      at least 1 and at most the budget (or 1 when the budget is below 1);
      the orbit points checked at counts 1 .. n - 1, `Orbit(c, 0 .. n - 2)`,
      did not escape, and when `n` is below the budget the point checked at
      count `n`, `Orbit(c, n - 1)`, had `|z|^2 >= 4`. */
  ghost predicate IsEscapeCount(c: Complex, maxIterations: int, n: int)
  {
    && 1 <= n <= Max(1, maxIterations)
    && StaysInside(c, n - 1)
    && (n < maxIterations ==> Mag2(Orbit(c, n - 1)) >= 4.0)
  }

  /** The count as a recursive function: `n` is the current count and `z`
      the current orbit point. */
  function EscapeFrom(c: Complex, z: Complex, n: int, maxIterations: int): (r: int)
    ensures n <= r <= Max(n, maxIterations)
    decreases maxIterations - n
  {
    if n >= maxIterations then n
    else if Mag2(z) >= 4.0 then n
    else EscapeFrom(c, Next(z, c), n + 1, maxIterations)
  }

  function EscapeTime(c: Complex, maxIterations: int): (n: int)
    ensures 1 <= n <= Max(1, maxIterations)
  {
    EscapeFrom(c, c, 1, maxIterations)
  }

  lemma {:induction false} EscapeFromIsCount(c: Complex, n: int, maxIterations: int)
    requires 1 <= n <= Max(1, maxIterations)
    requires StaysInside(c, n - 1)
    ensures IsEscapeCount(c, maxIterations, EscapeFrom(c, Orbit(c, n - 1), n, maxIterations))
    decreases maxIterations - n
  {
    var z := Orbit(c, n - 1);
    if n < maxIterations && Mag2(z) < 4.0 {
      assert Orbit(c, n) == Next(z, c);
      EscapeFromIsCount(c, n + 1, maxIterations);
    }
  }

  /** `EscapeTime` meets the characterisation `IsEscapeCount`. */
  lemma EscapeTimeIsCount(c: Complex, maxIterations: int)
    ensures IsEscapeCount(c, maxIterations, EscapeTime(c, maxIterations))
  {
    EscapeFromIsCount(c, 1, maxIterations);
  }

  /** `IsEscapeCount` pins the count down: two counts that meet it agree. */
  lemma EscapeCountUnique(c: Complex, maxIterations: int, n1: int, n2: int)
    requires IsEscapeCount(c, maxIterations, n1) && IsEscapeCount(c, maxIterations, n2)
    ensures n1 == n2
  {
    if n1 < n2 {
      StaysInsideAt(c, n2 - 1, n1 - 1);
    } else if n2 < n1 {
      StaysInsideAt(c, n1 - 1, n2 - 1);
    }
  }

  /** Whatever meets `IsEscapeCount` is `EscapeTime`. */
  lemma CountIsEscapeTime(c: Complex, maxIterations: int, n: int)
    requires IsEscapeCount(c, maxIterations, n)
    ensures n == EscapeTime(c, maxIterations)
  {
    EscapeTimeIsCount(c, maxIterations);
    EscapeCountUnique(c, maxIterations, n, EscapeTime(c, maxIterations));
  }

  lemma {:induction false} OriginFixed(k: nat)
    ensures Orbit(Complex(0.0, 0.0), k) == Complex(0.0, 0.0)
  {
    if k > 0 {
      OriginFixed(k - 1);
    }
  }

  /** The origin never escapes: its count is the whole budget. */
  lemma OriginUsesWholeBudget(maxIterations: int)
    ensures EscapeTime(Complex(0.0, 0.0), maxIterations) == Max(1, maxIterations)
  {
    var c := Complex(0.0, 0.0);
    EscapeTimeIsCount(c, maxIterations);
    var n := EscapeTime(c, maxIterations);
    if n < maxIterations {
      OriginFixed(n - 1);
    }
  }

  /** A point already outside the radius-2 circle, such as `(2, 2)`, is
      counted 1: the first step is taken and then the escape is seen. */
  lemma FarPointCountsOne(c: Complex, maxIterations: int)
    requires Mag2(c) >= 4.0
    ensures EscapeTime(c, maxIterations) == 1
  {
  }

  /** `trace` lists the first `|trace|` points of the orbit of `c`. */
  ghost predicate IsTrace(c: Complex, trace: seq<Complex>)
  {
    && |trace| > 0 && trace[0] == c
    && forall k :: 0 < k < |trace| ==> trace[k] == Next(trace[k - 1], c)
  }

  lemma {:induction false} TraceIsOrbit(c: Complex, trace: seq<Complex>, k: nat)
    requires IsTrace(c, trace) && k < |trace|
    ensures trace[k] == Orbit(c, k)
  {
    if k > 0 {
      TraceIsOrbit(c, trace, k - 1);
    }
  }

  lemma {:induction false} TraceStaysInside(c: Complex, trace: seq<Complex>, j: nat)
    requires IsTrace(c, trace) && j <= |trace|
    requires forall k :: 0 <= k < j ==> Mag2(trace[k]) < 4.0
    ensures StaysInside(c, j)
  {
    if j > 0 {
      TraceStaysInside(c, trace, j - 1);
      TraceIsOrbit(c, trace, j - 1);
    }
  }

  /** The escape loop of the renderer. `n := 1` and the increment at the end
      of the body are the `++n` of the loop condition. */
  method EscapeCount(c: Complex, maxIterations: int) returns (n: int)
    ensures IsEscapeCount(c, maxIterations, n)
    ensures n == EscapeTime(c, maxIterations)
  {
    var x1, y1 := c.re, c.im;
    ghost var trace := [c];
    n := 1;
    while n < maxIterations
      invariant 1 <= n <= Max(1, maxIterations)
      invariant IsTrace(c, trace) && |trace| == n && trace[n - 1] == Complex(x1, y1)
      invariant forall k :: 0 <= k < n - 1 ==> Mag2(trace[k]) < 4.0
      decreases maxIterations - n
    {
      ghost var z := Complex(x1, y1);
      var x2 := x1 * x1;
      var y2 := y1 * y1;
      y1 := 2.0 * x1 * y1 + c.im;
      x1 := x2 - y2 + c.re;
      assert x2 + y2 == Mag2(z) && Complex(x1, y1) == Next(z, c);
      if x2 + y2 >= 4.0 {
        break;
      }
      trace := trace + [Complex(x1, y1)];
      n := n + 1;
    }
    TraceStaysInside(c, trace, n - 1);
    TraceIsOrbit(c, trace, n - 1);
    CountIsEscapeTime(c, maxIterations, n);
  }
}
