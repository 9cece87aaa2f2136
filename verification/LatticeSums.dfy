/** What a kernel of src/stb/stb_image_resize.h adds up to over evenly spaced points. A kernel is a spline, so
    each is the difference, over one step, of a function that is known in closed form; sums telescope. */
module LatticeSums {
  import opened SampleRanges
  import opened Sums

  // ----- Fractions -----

  function Frac(z: real): (f: real)
    ensures 0.0 <= f < 1.0
  {
    z - z.Floor as real
  }

  lemma FracShift(z: real, n: int)
    ensures Frac(z + n as real) == Frac(z)
  {
    var f := z - z.Floor as real;
    assert z + n as real == (z.Floor + n) as real + f;
    assert (z + n as real).Floor == z.Floor + n;
  }

  /** f * (1 - f), and the third Bernoulli polynomial, of the fraction of z. */
  function Bump(z: real): real { Frac(z) * (1.0 - Frac(z)) }

  function Cubic(z: real): real { Frac(z) * (Frac(z) - 0.5) * (Frac(z) - 1.0) }

  // ----- Powers of the positive part, summed over u, u - s, u - 2s, ... -----

  function Plus(u: real): real { if u < 0.0 then 0.0 else u }

  /** s times the sum of all Plus(u - k * s), of their squares, and of their cubes. */
  function Sum1(u: real, s: real): real
    requires s > 0.0
  {
    if u < 0.0 then 0.0 else (u * (u + s) + s * s * Bump(u / s)) / 2.0
  }

  function Sum2(u: real, s: real): real
    requires s > 0.0
  {
    if u < 0.0 then 0.0 else (u * (u + s / 2.0) * (u + s) - s * s * s * Cubic(u / s)) / 3.0
  }

  function Sum3(u: real, s: real): real
    requires s > 0.0
  {
    if u < 0.0 then 0.0
    else (u * (u + s) * (u * (u + s)) - s * s * s * s * (Bump(u / s) * Bump(u / s))) / 4.0
  }

  lemma StepFraction(u: real, s: real)
    requires s > 0.0
    ensures u / s * s == u && Frac((u - s) / s) == Frac(u / s)
    ensures 0.0 <= u < s ==> Frac(u / s) == u / s
  {
    Divide(u, 1.0, s);
    FracShift(u / s, -1);
    if 0.0 <= u < s {
      assert 0.0 <= u / s < 1.0 by { Quotient(u, s); }
    }
  }

  lemma Quotient(u: real, s: real)
    requires 0.0 <= u < s
    ensures 0.0 <= u / s < 1.0
  {
    var q := u / s;
    assert q * s == u;
    assert q >= 1.0 ==> (q - 1.0) * s >= 0.0;
  }

  lemma Sum1Step(u: real, s: real)
    requires s > 0.0
    ensures Sum1(u, s) - Sum1(u - s, s) == s * Plus(u)
  {
    StepFraction(u, s);
    var f := Frac(u / s);
    if 0.0 <= u < s {
      assert s * s * (f * (1.0 - f)) == s * f * s - s * f * (s * f);
    }
  }

  lemma Sum2Step(u: real, s: real)
    requires s > 0.0
    ensures Sum2(u, s) - Sum2(u - s, s) == s * (Plus(u) * Plus(u))
  {
    StepFraction(u, s);
    var f := Frac(u / s);
    if 0.0 <= u < s {
      assert s * f == u;
      assert s * s * s * (f * (f - 0.5) * (f - 1.0)) == u * (u - s / 2.0) * (u - s);
    }
  }

  lemma Sum3Step(u: real, s: real)
    requires s > 0.0
    ensures Sum3(u, s) - Sum3(u - s, s) == s * (Plus(u) * Plus(u) * Plus(u))
  {
    StepFraction(u, s);
    var f := Frac(u / s);
    if 0.0 <= u < s {
      assert s * f == u;
      var w := f * (1.0 - f);
      assert s * s * w == u * (s - u);
      assert s * s * s * s * (w * w) == s * s * w * (s * s * w) == u * (s - u) * (u * (s - u));
    } else if u >= s {
      assert u * (u + s) * (u * (u + s)) - (u - s) * u * ((u - s) * u) == u * u * (4.0 * u * s);
    }
  }

  // ----- Kernels as splines -----

  /** Differences of the values at knots from 2 down to -2: a third one, with no middle knot, and the fourth. */
  function Twist(a: real, b: real, d: real, e: real): real { -a + 2.0 * b - 2.0 * d + e }

  function Fourth(a: real, b: real, c: real, d: real, e: real): real { a - 4.0 * b + 6.0 * c - 4.0 * d + e }

  /** A cubic kernel is a combination of the two. */
  function TwistShare(f: Filter): real {
    match f case CatmullRom => 0.5 case Mitchell => 1.0 / 3.0 case _ => 0.0
  }

  function FourthShare(f: Filter): real {
    match f case CatmullRom => 0.5 case Mitchell => 7.0 / 18.0 case _ => 1.0 / 6.0
  }

  predicate IsCubic(f: Filter) { f.CubicBSpline? || f.CatmullRom? || f.Mitchell? }

  function Square(u: real): real { Plus(u) * Plus(u) }

  function Cube(u: real): real { Plus(u) * Plus(u) * Plus(u) }

  function TwistOfSquares(x: real): real {
    Twist(Square(x + 2.0), Square(x + 1.0), Square(x - 1.0), Square(x - 2.0))
  }

  function FourthOfCubes(x: real): real {
    Fourth(Cube(x + 2.0), Cube(x + 1.0), Cube(x), Cube(x - 1.0), Cube(x - 2.0))
  }

  lemma Expand(x: real, c: real)
    ensures (x + c) * (x + c) == x * x + 2.0 * (c * x) + c * c
    ensures (x + c) * (x + c) * (x + c) == x * x * x + 3.0 * (c * (x * x)) + 3.0 * (c * c * x) + c * c * c
  {}

  lemma TwistIs(x: real)
    ensures TwistOfSquares(x) == (
      var a := Abs(x);
      if a < 1.0 then a * a - 2.0 else if a < 2.0 then -((2.0 - a) * (2.0 - a)) else 0.0)
  {
    Expand(x, 2.0);
    Expand(x, 1.0);
    Expand(x, -1.0);
    Expand(x, -2.0);
  }

  lemma FourthIs(x: real)
    ensures FourthOfCubes(x) == (
      var a := Abs(x);
      if a < 1.0 then 4.0 + a * a * (3.0 * a - 6.0)
      else if a < 2.0 then (2.0 - a) * (2.0 - a) * (2.0 - a) else 0.0)
  {
    Expand(x, 2.0);
    Expand(x, 1.0);
    Expand(x, -1.0);
    Expand(x, -2.0);
  }

  lemma CubicIsSpline(f: Filter, x: real, s: real)
    requires IsCubic(f) && 0.0 < s <= 1.0
    ensures Kernel(f, x, s) == TwistShare(f) * TwistOfSquares(x) + FourthShare(f) * FourthOfCubes(x)
  {
    TwistIs(x);
    FourthIs(x);
    hide TwistOfSquares, FourthOfCubes;
    var a := Abs(x);
    Expand(a, -2.0);
  }

  function TwistOfSums(x: real, s: real): real
    requires s > 0.0
  {
    Twist(Sum2(x + 2.0, s), Sum2(x + 1.0, s), Sum2(x - 1.0, s), Sum2(x - 2.0, s))
  }

  function FourthOfSums(x: real, s: real): real
    requires s > 0.0
  {
    Fourth(Sum3(x + 2.0, s), Sum3(x + 1.0, s), Sum3(x, s), Sum3(x - 1.0, s), Sum3(x - 2.0, s))
  }

  /** s times the sum of the kernel at x, x - s, x - 2s, ... */
  function Tail(f: Filter, x: real, s: real): real
    requires 0.0 < s <= 1.0
  {
    match f
    case Box => Plus(x + 0.5 + s / 2.0) - Plus(x - 0.5 + s / 2.0)
    case Triangle => Sum1(x + 1.0, s) - 2.0 * Sum1(x, s) + Sum1(x - 1.0, s)
    case _ => TwistShare(f) * TwistOfSums(x, s) + FourthShare(f) * FourthOfSums(x, s)
  }

  lemma TailStep(f: Filter, x: real, s: real)
    requires 0.0 < s <= 1.0
    ensures Tail(f, x, s) - Tail(f, x - s, s) == s * Kernel(f, x, s)
  {
    match f
    case Box => BoxStep(x, s);
    case Triangle => TriangleStep(x, s);
    case _ =>
      CubicTailStep(f, x, s);
  }

  lemma CubicTailStep(f: Filter, x: real, s: real)
    requires 0.0 < s <= 1.0 && IsCubic(f)
    ensures Tail(f, x, s) - Tail(f, x - s, s) == s * Kernel(f, x, s)
  {
    hide *;
    CubicIsSpline(f, x, s);
    CubicStep(x, s);
    CombineStep(f, x, s);
  }

  lemma CombineStep(f: Filter, x: real, s: real)
    requires 0.0 < s <= 1.0 && IsCubic(f)
    requires TwistOfSums(x, s) - TwistOfSums(x - s, s) == s * TwistOfSquares(x)
    requires FourthOfSums(x, s) - FourthOfSums(x - s, s) == s * FourthOfCubes(x)
    ensures Tail(f, x, s) - Tail(f, x - s, s) ==
            s * (TwistShare(f) * TwistOfSquares(x) + FourthShare(f) * FourthOfCubes(x))
  {
    hide TwistOfSums, FourthOfSums, TwistOfSquares, FourthOfCubes, TwistShare, FourthShare;
    var t, t', q, q', a, b := TwistOfSums(x, s), TwistOfSums(x - s, s), FourthOfSums(x, s), FourthOfSums(x - s, s),
                              TwistShare(f), FourthShare(f);
    assert a * t + b * q - (a * t' + b * q') == a * (t - t') + b * (q - q');
  }

  lemma TriangleStep(x: real, s: real)
    requires 0.0 < s <= 1.0
    ensures Tail(Triangle, x, s) - Tail(Triangle, x - s, s) == s * Kernel(Triangle, x, s)
  {
    hide Sum1;
    Sum1Step(x + 1.0, s);
    Sum1Step(x, s);
    Sum1Step(x - 1.0, s);
    assert x - s + 1.0 == x + 1.0 - s && x - s - 1.0 == x - 1.0 - s;
    assert Kernel(Triangle, x, s) == Plus(x + 1.0) - 2.0 * Plus(x) + Plus(x - 1.0);
  }

  lemma BoxStep(x: real, s: real)
    requires 0.0 < s <= 1.0
    ensures Tail(Box, x, s) - Tail(Box, x - s, s) == s * Kernel(Box, x, s)
  {
    var t, a := 0.5 + s / 2.0, Abs(x);
    assert s * ((t - a) / s) == t - a;
  }

  lemma CubicStep(x: real, s: real)
    requires 0.0 < s
    ensures TwistOfSums(x, s) - TwistOfSums(x - s, s) == s * TwistOfSquares(x)
    ensures FourthOfSums(x, s) - FourthOfSums(x - s, s) == s * FourthOfCubes(x)
  {
    hide Sum2, Sum3, Square, Cube;
    StepAt(x + 2.0, x - s + 2.0, s);
    StepAt(x + 1.0, x - s + 1.0, s);
    StepAt(x, x - s, s);
    StepAt(x - 1.0, x - s - 1.0, s);
    StepAt(x - 2.0, x - s - 2.0, s);
    Distribute4(s, Square(x + 2.0), Square(x + 1.0), Square(x - 1.0), Square(x - 2.0));
    Distribute5(s, Cube(x + 2.0), Cube(x + 1.0), Cube(x), Cube(x - 1.0), Cube(x - 2.0));
  }

  lemma StepAt(u: real, v: real, s: real)
    requires s > 0.0 && v == u - s
    ensures Sum2(u, s) - Sum2(v, s) == s * Square(u) && Sum3(u, s) - Sum3(v, s) == s * Cube(u)
  {
    hide *;
    Sum2Step(u, s);
    Sum3Step(u, s);
    assert Square(u) == Plus(u) * Plus(u) && Cube(u) == Plus(u) * Plus(u) * Plus(u) by { PowersAre(u); }
  }

  lemma PowersAre(u: real)
    ensures Square(u) == Plus(u) * Plus(u) && Cube(u) == Plus(u) * Plus(u) * Plus(u)
  {}

  lemma Distribute4(s: real, a: real, b: real, c: real, d: real)
    ensures s * Twist(a, b, c, d) == Twist(s * a, s * b, s * c, s * d)
  {}

  lemma Distribute5(s: real, a: real, b: real, c: real, d: real, e: real)
    ensures s * Fourth(a, b, c, d, e) == Fourth(s * a, s * b, s * c, s * d, s * e)
  {}

  lemma TailStarts(f: Filter, x: real, s: real)
    requires 0.0 < s <= 1.0 && x <= -Support(f, s)
    ensures Tail(f, x, s) == 0.0
  {
    assert forall u: real {:trigger Sum1(u, s)} {:trigger Sum2(u, s)} {:trigger Sum3(u, s)} :: u < 0.0 ==>
      Sum1(u, s) == 0.0 && Sum2(u, s) == 0.0 && Sum3(u, s) == 0.0;
    ZeroSums(s);
    hide Sum1, Sum2, Sum3;
  }

  lemma ZeroSums(s: real)
    requires s > 0.0
    ensures Sum1(0.0, s) == 0.0 && Sum2(0.0, s) == 0.0 && Sum3(0.0, s) == 0.0
  {
    assert 0.0 / s == 0.0;
  }

  /** The points x, x - s, ..., weighted. */
  function Point(x: real, s: real, j: int): real { x - j as real * s }

  ghost predicate Samples(f: Filter, x: real, s: real, w: int -> real, n: nat)
    requires 0.0 < s <= 1.0
  {
    forall j :: 0 <= j < n ==> w(j) == s * Kernel(f, Point(x, s, j), s)
  }

  lemma {:induction false} TailSum(f: Filter, x: real, s: real, w: int -> real, n: nat)
    requires 0.0 < s <= 1.0 && Samples(f, x, s, w, n)
    ensures Sum(w, 0, n) == Tail(f, x, s) - Tail(f, Point(x, s, n), s)
    decreases n
  {
    hide *;
    if n > 0 {
      LastSample(f, x, s, w, n);
      TailSum(f, x, s, w, n - 1);
      SumStep(w, 0, n);
      TailStep(f, Point(x, s, n - 1), s);
      Points(x, s, n);
    } else {
      Points(x, s, 0);
      SumZero(w, 0, 0);
    }
  }

  lemma LastSample(f: Filter, x: real, s: real, w: int -> real, n: nat)
    requires 0.0 < s <= 1.0 && Samples(f, x, s, w, n) && n > 0
    ensures Samples(f, x, s, w, n - 1) && w(n - 1) == s * Kernel(f, Point(x, s, n - 1), s)
  {}

  lemma Points(x: real, s: real, n: nat)
    ensures Point(x, s, 0) == x && Point(x, s, n - 1) - s == Point(x, s, n)
  {}

  // ----- The whole sum -----

  function TwistOfCubics(x: real, s: real): real
    requires s > 0.0
  {
    Twist(Cubic((x + 2.0) / s), Cubic((x + 1.0) / s), Cubic((x - 1.0) / s), Cubic((x - 2.0) / s))
  }

  function Bump2(z: real): real { Bump(z) * Bump(z) }

  function FourthOfBumps(x: real, s: real): real
    requires s > 0.0
  {
    Fourth(Bump2((x + 2.0) / s), Bump2((x + 1.0) / s), Bump2(x / s), Bump2((x - 1.0) / s), Bump2((x - 2.0) / s))
  }

  /** By how much the sum over all points x - k * s, of the kernel times s, misses 1. */
  function Ripple(f: Filter, x: real, s: real): real
    requires 0.0 < s <= 1.0
  {
    match f
    case Box => 0.0
    case Triangle => s * s * (Bump((x + 1.0) / s) - 2.0 * Bump(x / s) + Bump((x - 1.0) / s)) / 2.0
    case _ => -(s * s * s * (TwistShare(f) / 3.0 * TwistOfCubics(x, s)
                             + s * (FourthShare(f) / 4.0 * FourthOfBumps(x, s))))
  }

  lemma TailEnds(f: Filter, x: real, s: real)
    requires 0.0 < s <= 1.0 && x >= Support(f, s)
    ensures Tail(f, x, s) == 1.0 + Ripple(f, x, s)
  {
    match f
    case Box =>
    case Triangle => TriangleEnds(x, s);
    case _ => CubicEnds(f, x, s);
  }

  lemma CubicEnds(f: Filter, x: real, s: real)
    requires 0.0 < s <= 1.0 && x >= 2.0 && IsCubic(f)
    ensures Tail(f, x, s) == 1.0 + Ripple(f, x, s)
  {
    hide *;
    CubicTail(f, x, s);
    TwistEnds(x, s);
    FourthEnds(x, s);
    CombineEnds(TwistShare(f), FourthShare(f), TwistOfCubics(x, s), FourthOfBumps(x, s), s);
  }

  lemma CubicTail(f: Filter, x: real, s: real)
    requires 0.0 < s <= 1.0 && IsCubic(f)
    ensures -4.0 * TwistShare(f) + 6.0 * FourthShare(f) == 1.0
    ensures Tail(f, x, s) == TwistShare(f) * TwistOfSums(x, s) + FourthShare(f) * FourthOfSums(x, s)
    ensures Ripple(f, x, s) ==
      -(s * s * s * (TwistShare(f) / 3.0 * TwistOfCubics(x, s) + s * (FourthShare(f) / 4.0 * FourthOfBumps(x, s))))
  {
    hide TwistOfSums, FourthOfSums, TwistOfCubics, FourthOfBumps;
  }

  lemma CombineEnds(a: real, b: real, t: real, q: real, s: real)
    requires -4.0 * a + 6.0 * b == 1.0
    ensures a * (-4.0 - s * s * s * t / 3.0) + b * (6.0 - s * s * s * s * q / 4.0) ==
            1.0 - s * s * s * (a / 3.0 * t + s * (b / 4.0 * q))
  {
    var c := s * s * s;
    assert a * (-4.0 - c * t / 3.0) == -4.0 * a - c * (a / 3.0 * t);
    assert b * (6.0 - c * s * q / 4.0) == 6.0 * b - c * (s * (b / 4.0 * q));
    assert c * (a / 3.0 * t + s * (b / 4.0 * q)) == c * (a / 3.0 * t) + c * (s * (b / 4.0 * q));
  }

  lemma TriangleEnds(x: real, s: real)
    requires 0.0 < s <= 1.0 && x >= 1.0
    ensures Tail(Triangle, x, s) == 1.0 + Ripple(Triangle, x, s)
  {
    hide Bump;
    Expand(x, 1.0);
    Expand(x, -1.0);
  }

  lemma Cubed(u: real, s: real)
    ensures u * (u + s / 2.0) * (u + s) == u * u * u + 1.5 * (s * (u * u)) + s * s * u / 2.0
    ensures u * (u + s) * (u * (u + s)) == u * u * (u * u) + 2.0 * (s * (u * u * u)) + s * s * (u * u)
  {}

  lemma Sum2Is(u: real, s: real)
    requires 0.0 < s && u >= 0.0
    ensures Sum2(u, s) == (u * u * u + 1.5 * (s * (u * u)) + s * s * u / 2.0 - s * s * s * Cubic(u / s)) / 3.0
  {
    Cubed(u, s);
  }

  lemma TwistEnds(x: real, s: real)
    requires 0.0 < s <= 1.0 && x >= 2.0
    ensures TwistOfSums(x, s) == -4.0 - s * s * s * TwistOfCubics(x, s) / 3.0
  {
    hide Cubic, Sum2;
    Sum2Is(x + 2.0, s);
    Sum2Is(x + 1.0, s);
    Sum2Is(x - 1.0, s);
    Sum2Is(x - 2.0, s);
    Expand(x, 2.0);
    Expand(x, 1.0);
    Expand(x, -1.0);
    Expand(x, -2.0);
    Distribute4(s * s * s, Cubic((x + 2.0) / s), Cubic((x + 1.0) / s), Cubic((x - 1.0) / s), Cubic((x - 2.0) / s));
  }

  lemma FourthEnds(x: real, s: real)
    requires 0.0 < s <= 1.0 && x >= 2.0
    ensures FourthOfSums(x, s) == 6.0 - s * s * s * s * FourthOfBumps(x, s) / 4.0
  {
    hide Bump2, Sum3, Quartic;
    Sum3Is(x + 2.0, s);
    Sum3Is(x + 1.0, s);
    Sum3Is(x, s);
    Sum3Is(x - 1.0, s);
    Sum3Is(x - 2.0, s);
    Quartics(x, s);
    Distribute5(s * s * s * s, Bump2((x + 2.0) / s), Bump2((x + 1.0) / s), Bump2(x / s), Bump2((x - 1.0) / s),
                Bump2((x - 2.0) / s));
  }

  function Quartic(u: real, s: real): real { u * u * (u * u) + 2.0 * s * (u * u * u) + s * s * (u * u) }

  lemma Sum3Is(u: real, s: real)
    requires 0.0 < s && u >= 0.0
    ensures Sum3(u, s) == (Quartic(u, s) - s * s * s * s * Bump2(u / s)) / 4.0
  {
    Cubed(u, s);
  }

  function Power2(u: real): real { u * u }
  function Power3(u: real): real { u * u * u }
  function Power4(u: real): real { u * u * (u * u) }

  lemma Quartics(x: real, s: real)
    ensures 24.0 ==
      Fourth(Quartic(x + 2.0, s), Quartic(x + 1.0, s), Quartic(x, s), Quartic(x - 1.0, s), Quartic(x - 2.0, s))
  {
    QuarticsOf(x, s, 2.0 * s, s * s);
  }

  lemma QuarticsOf(x: real, s: real, p: real, q: real)
    requires p == 2.0 * s && q == s * s
    ensures 24.0 ==
      Fourth(Quartic(x + 2.0, s), Quartic(x + 1.0, s), Quartic(x, s), Quartic(x - 1.0, s), Quartic(x - 2.0, s))
  {
    hide *;
    FourthOfPowers(x);
    QuarticIs(x + 2.0, s, p, q);
    QuarticIs(x + 1.0, s, p, q);
    QuarticIs(x, s, p, q);
    QuarticIs(x - 1.0, s, p, q);
    QuarticIs(x - 2.0, s, p, q);
    FourthOfTimes(p, Power3(x + 2.0), Power3(x + 1.0), Power3(x), Power3(x - 1.0), Power3(x - 2.0));
    FourthOfTimes(q, Power2(x + 2.0), Power2(x + 1.0), Power2(x), Power2(x - 1.0), Power2(x - 2.0));
    AddFourths(Power4(x + 2.0), Power4(x + 1.0), Power4(x), Power4(x - 1.0), Power4(x - 2.0),
               Times(p, Power3(x + 2.0)), Times(p, Power3(x + 1.0)), Times(p, Power3(x)), Times(p, Power3(x - 1.0)),
               Times(p, Power3(x - 2.0)),
               Times(q, Power2(x + 2.0)), Times(q, Power2(x + 1.0)), Times(q, Power2(x)), Times(q, Power2(x - 1.0)),
               Times(q, Power2(x - 2.0)),
               Quartic(x + 2.0, s), Quartic(x + 1.0, s), Quartic(x, s), Quartic(x - 1.0, s), Quartic(x - 2.0, s));
  }

  function Times(s: real, a: real): real { s * a }

  lemma FourthOfTimes(s: real, a: real, b: real, c: real, d: real, e: real)
    requires Fourth(a, b, c, d, e) == 0.0
    ensures Fourth(Times(s, a), Times(s, b), Times(s, c), Times(s, d), Times(s, e)) == 0.0
  {
    Distribute5(s, a, b, c, d, e);
    hide Fourth;
    assert s * 0.0 == 0.0;
  }

  lemma AddFourths(a: real, b: real, c: real, d: real, e: real, a': real, b': real, c': real, d': real, e': real,
                   a'': real, b'': real, c'': real, d'': real, e'': real, v: real, w: real, x: real, y: real, z: real)
    requires v == a + a' + a'' && w == b + b' + b'' && x == c + c' + c'' && y == d + d' + d'' && z == e + e' + e''
    requires Fourth(a', b', c', d', e') == 0.0 && Fourth(a'', b'', c'', d'', e'') == 0.0
    ensures Fourth(v, w, x, y, z) == Fourth(a, b, c, d, e)
  {}

  lemma QuarticIs(u: real, s: real, p: real, q: real)
    requires p == 2.0 * s && q == s * s
    ensures Quartic(u, s) == Power4(u) + Times(p, Power3(u)) + Times(q, Power2(u))
  {}

  /** A fourth difference is 0 below the fourth power, and 24 on it. */
  lemma FourthOfPowers(x: real)
    ensures Fourth(Power2(x + 2.0), Power2(x + 1.0), Power2(x), Power2(x - 1.0), Power2(x - 2.0)) == 0.0
    ensures Fourth(Power3(x + 2.0), Power3(x + 1.0), Power3(x), Power3(x - 1.0), Power3(x - 2.0)) == 0.0
    ensures Fourth(Power4(x + 2.0), Power4(x + 1.0), Power4(x), Power4(x - 1.0), Power4(x - 2.0)) == 24.0
  {
    Power4Is(x, 2.0);
    Power4Is(x, 1.0);
    Power4Is(x, -1.0);
    Power4Is(x, -2.0);
    Expand(x, 2.0);
    Expand(x, 1.0);
    Expand(x, -1.0);
    Expand(x, -2.0);
    hide Power4;
  }

  lemma Power4Is(x: real, c: real)
    ensures Power4(x + c) ==
            Power4(x) + 4.0 * (c * Power3(x)) + 6.0 * (c * c * Power2(x)) + 4.0 * (c * c * c * x) + c * c * c * c
  {
    Expand(x, c);
    var y := x * x + 2.0 * (c * x) + c * c;
    assert Power4(x + c) == y * y;
  }

  lemma RipplePeriod(f: Filter, x: real, s: real)
    requires 0.0 < s <= 1.0
    ensures Ripple(f, x + s, s) == Ripple(f, x, s)
  {
    match f
    case Box =>
    case Triangle => TrianglePeriod(x, s);
    case _ => CubicRipplePeriod(f, x, s);
  }

  lemma {:induction false} RipplePeriods(f: Filter, x: real, s: real, n: int)
    requires 0.0 < s <= 1.0 && n >= 0
    ensures Ripple(f, Point(x, s, -n), s) == Ripple(f, x, s)
    decreases n
  {
    hide Ripple;
    if n > 0 {
      RipplePeriods(f, x, s, n - 1);
      RipplePeriod(f, Point(x, s, -(n - 1)), s);
      PointBefore(x, s, n);
      hide Point;
    }
  }

  lemma PointBefore(x: real, s: real, n: int)
    ensures Point(x, s, -(n - 1)) + s == Point(x, s, -n)
  {
    var a, b := (-(n - 1)) as real, (-n) as real;
    assert a == b + 1.0;
    assert a * s == b * s + s;
  }

  lemma TrianglePeriod(x: real, s: real)
    requires 0.0 < s <= 1.0
    ensures Ripple(Triangle, x + s, s) == Ripple(Triangle, x, s)
  {
    hide Bump;
    FracNext(x + 1.0, x + s + 1.0, s);
    FracNext(x, x + s, s);
    FracNext(x - 1.0, x + s - 1.0, s);
  }

  lemma CubicRipplePeriod(f: Filter, x: real, s: real)
    requires 0.0 < s <= 1.0 && IsCubic(f)
    ensures Ripple(f, x + s, s) == Ripple(f, x, s)
  {
    hide *;
    CubicTail(f, x, s);
    CubicTail(f, x + s, s);
    CubicPeriod(x, s);
  }

  lemma CubicPeriod(x: real, s: real)
    requires s > 0.0
    ensures TwistOfCubics(x + s, s) == TwistOfCubics(x, s) && FourthOfBumps(x + s, s) == FourthOfBumps(x, s)
  {
    hide Bump, Bump2, Cubic;
    FracNext(x + 2.0, x + s + 2.0, s);
    FracNext(x + 1.0, x + s + 1.0, s);
    FracNext(x, x + s, s);
    FracNext(x - 1.0, x + s - 1.0, s);
    FracNext(x - 2.0, x + s - 2.0, s);
  }

  lemma FracNext(u: real, v: real, s: real)
    requires s > 0.0 && v == u + s
    ensures Bump(v / s) == Bump(u / s) && Bump2(v / s) == Bump2(u / s) && Cubic(v / s) == Cubic(u / s)
  {
    Divide(u, 1.0, s);
    FracShift(u / s, 1);
    assert Frac(v / s) == Frac(u / s);
    hide Frac;
  }

  /** Over points that reach from one end of the support to the other the sum is 1, up to the ripple. */
  lemma WholeSum(f: Filter, x: real, s: real, w: int -> real, n: nat)
    requires 0.0 < s <= 1.0 && x >= Support(f, s) - s && Point(x, s, n) <= -Support(f, s)
    requires Samples(f, x, s, w, n)
    ensures Sum(w, 0, n) == 1.0 + Ripple(f, x, s)
  {
    hide *;
    TailSum(f, x, s, w, n);
    TailStarts(f, Point(x, s, n), s);
    BeyondSupport(f, x + s, s);
    TailStep(f, x + s, s);
    assert x + s - s == x;
    TailEnds(f, x + s, s);
    RipplePeriod(f, x, s);
  }

  lemma BeyondSupport(f: Filter, x: real, s: real)
    requires 0.0 < s <= 1.0 && x >= Support(f, s)
    ensures Kernel(f, x, s) == 0.0
  {}

  // ----- How large the ripple gets -----

  /** A product with a factor that is not negative, bounded by a bound of the other. */
  lemma Between(a: real, lo: real, hi: real, c: real)
    requires lo <= a <= hi && c >= 0.0
    ensures c * lo <= c * a <= c * hi
  {
    assert c * (a - lo) >= 0.0 && c * (hi - a) >= 0.0;
  }

  lemma ProductNonNegative(a: real, b: real)
    requires a >= 0.0 && b >= 0.0
    ensures a * b >= 0.0
  {}

  /** With d the distance of the fraction from one half, c = w * d and b = w * w what it adds at one knot. */
  predicate IsKnot(c: real, b: real) {
    && -0.05 <= c <= 0.05 && 0.0 <= b <= 0.0625
    && -0.01 <= c / 3.0 + b / 2.0 <= 0.04 && -0.01 <= -c / 3.0 + b / 2.0 <= 0.04
    && -0.0065 <= c / 6.0 + b / 8.0 <= 0.0135 && -0.0065 <= -c / 6.0 + b / 8.0 <= 0.0135
  }

  lemma KnotOf(d: real, e: real, w: real)
    requires -0.5 <= d <= 0.5 && e == d * d && w == 0.25 - e
    ensures 0.0 <= e <= 0.25 && IsKnot(w * d, w * w)
  {
    hide IsKnot, Tangent;
    NotNegative(d);
    assert (0.5 + d) * (0.5 - d) == w;
    ProductNonNegative(0.5 + d, 0.5 - d);
    assert w >= 0.0;
    ProductNonNegative(e, w);
    KnotBound(d, e, w, 0.2, 2.5);
    KnotBound(d, e, w, 0.25, 2.0);
    KnotBound(d, e, w, 0.3, 5.0 / 3.0);
    KnotBound(d, e, w, 0.4, 1.25);
    Vertex(e, 0.08);
    Vertex(e, 0.157);
    Vertex(e, 0.122);
    Vertex(e, 0.25);
    assert w * e == 0.25 * e - e * e && w * w == 0.0625 - 0.5 * e + e * e;
    KnotIsBounded(e, e * e, w * d);
  }

  /** The bounds that tangents at a give, in c = w * d and the square r of e. */
  lemma KnotIsBounded(e: real, r: real, c: real)
    requires 0.0 <= e <= 0.25 && 0.0 <= r <= 0.25 * e && r >= 0.16 * e - 0.0064
    requires r >= 0.5 * e - 0.0625 && r >= 0.314 * e - 0.157 * 0.157 && r >= 0.244 * e - 0.122 * 0.122
    requires Tangent(e, r, c, 0.2, 2.5) && Tangent(e, r, c, 0.25, 2.0)
    requires Tangent(e, r, c, 0.3, 5.0 / 3.0) && Tangent(e, r, c, 0.4, 1.25)
    ensures IsKnot(c, 0.0625 - 0.5 * e + r)
  {}

  predicate Tangent(e: real, r: real, c: real, a: real, k: real) {
    -(k * (0.25 * e - r) + (0.25 - e) * a / 2.0) <= c <= k * (0.25 * e - r) + (0.25 - e) * a / 2.0
  }

  lemma Vertex(e: real, a: real)
    ensures e * e >= 2.0 * a * e - a * a
  {
    NotNegative(e - a);
  }

  lemma NotNegative(a: real)
    ensures a * a >= 0.0
  {}

  lemma KnotBound(d: real, e: real, w: real, a: real, c: real)
    requires e == d * d && w == 0.25 - e && w >= 0.0 && c > 0.0 && 2.0 * a * c == 1.0
    ensures Tangent(e, e * e, w * d, a, c)
  {
    var bound := c * e + a / 2.0;
    NotNegative(d - a);
    NotNegative(d + a);
    Between(0.0, 0.0, (d - a) * (d - a), c);
    Between(0.0, 0.0, (d + a) * (d + a), c);
    assert c * ((d - a) * (d - a)) == c * e - 2.0 * a * c * d + a * c * a == bound - d;
    assert c * ((d + a) * (d + a)) == c * e + 2.0 * a * c * d + a * c * a == bound + d;
    Between(d, -bound, bound, w);
    assert w * bound == c * (w * e) + w * a / 2.0;
    assert w * e == 0.25 * e - e * e;
  }

  lemma Knot(z: real)
    ensures IsKnot(Cubic(z), Bump2(z))
  {
    hide IsKnot;
    var f := Frac(z);
    var d := 0.5 - f;
    var w := 0.25 - d * d;
    KnotOf(d, d * d, w);
    hide Frac, IsKnot;
    assert f * (1.0 - f) == w;
    assert f * (f - 0.5) * (f - 1.0) == w * d;
    assert Bump2(z) == w * w && Cubic(z) == w * d;
  }

  /** For the cubic filters the sum misses 1 by less than a tenth, wherever the points lie and however close. */
  lemma CubicRipple(f: Filter, x: real, s: real)
    requires 0.0 < s <= 1.0 && IsCubic(f)
    ensures -0.1 < Ripple(f, x, s) < 0.1
  {
    hide *;
    var t, q := KnotsOf(f, x, s);
    CubicTail(f, x, s);
    assert Ripple(f, x, s) == -(s * s * s * (t + s * q));
    Damped(t, q, s);
  }

  lemma KnotsOf(f: Filter, x: real, s: real) returns (t: real, q: real)
    requires 0.0 < s && IsCubic(f)
    ensures t == TwistShare(f) / 3.0 * TwistOfCubics(x, s) && q == FourthShare(f) / 4.0 * FourthOfBumps(x, s)
    ensures -0.1 < t < 0.1 && -0.1 < t + q < 0.1
  {
    hide Bump2, Cubic, IsKnot, TwistShare, FourthShare, Twist, Fourth;
    Knot((x + 2.0) / s);
    Knot((x + 1.0) / s);
    Knot(x / s);
    Knot((x - 1.0) / s);
    Knot((x - 2.0) / s);
    t, q := FiveKnots(
      f, TwistOfCubics(x, s), FourthOfBumps(x, s),
      Cubic((x + 2.0) / s), Cubic((x + 1.0) / s), Cubic(x / s), Cubic((x - 1.0) / s), Cubic((x - 2.0) / s),
      Bump2((x + 2.0) / s), Bump2((x + 1.0) / s), Bump2(x / s), Bump2((x - 1.0) / s), Bump2((x - 2.0) / s));
  }

  lemma FiveKnots(f: Filter, twist: real, fourth: real, c2: real, c1: real, c0: real, d1: real, d2: real,
                  b2: real, b1: real, b0: real, e1: real, e2: real)
    returns (t: real, q: real)
    requires IsCubic(f)
    requires twist == Twist(c2, c1, d1, d2) && fourth == Fourth(b2, b1, b0, e1, e2)
    requires IsKnot(c2, b2) && IsKnot(c1, b1) && IsKnot(c0, b0) && IsKnot(d1, e1) && IsKnot(d2, e2)
    ensures t == TwistShare(f) / 3.0 * twist && q == FourthShare(f) / 4.0 * fourth
    ensures -0.1 < t < 0.1 && -0.1 < t + q < 0.1
  {
    t, q := TwistShare(f) / 3.0 * twist, FourthShare(f) / 4.0 * fourth;
    match f
    case CubicBSpline =>
    case Mitchell =>
    case CatmullRom =>
  }

  lemma Damped(t: real, q: real, s: real)
    requires 0.0 < s <= 1.0 && -0.1 < t < 0.1 && -0.1 < t + q < 0.1
    ensures -0.1 < -(s * s * s * (t + s * q)) < 0.1
  {
    var u, v := (1.0 - s) * t, s * (t + q);
    var m := t + s * q;
    assert m == u + v;
    var m1 := s * m;
    var m2 := s * m1;
    var m3 := s * m2;
    assert s * s * s * m == m3;
    TenthOf(t, 1.0 - s, u);
    Tenth(t + q, s, v);
    AddTenths(u, v, s);
    Tenth(m, s, m1);
    Tenth(m1, s, m2);
    Tenth(m2, s, m3);
  }

  lemma AddTenths(u: real, v: real, c: real)
    requires -0.1 * (1.0 - c) <= u <= 0.1 * (1.0 - c) && -0.1 * c < v < 0.1 * c
    ensures -0.1 < u + v < 0.1
  {}

  lemma TenthOf(a: real, c: real, p: real)
    requires -0.1 < a < 0.1 && 0.0 <= c <= 1.0 && p == c * a
    ensures -0.1 * c <= p <= 0.1 * c
  {
    if c == 0.0 { assert p == 0.0; } else { Tenth(a, c, p); }
  }

  lemma Tenth(a: real, c: real, p: real)
    requires -0.1 < a < 0.1 && 0.0 < c <= 1.0 && p == c * a
    ensures -0.1 * c < p < 0.1 * c && -0.1 < p < 0.1
  {
    MulLess(a, 0.1, c);
    assert p < c * 0.1;
    MulLess(-0.1, a, c);
    assert c * -0.1 < p;
  }

  lemma MulLess(a: real, b: real, c: real)
    requires a < b && c > 0.0
    ensures c * a < c * b
  {
    assert (b - a) * c > 0.0;
  }

  // ----- The triangle -----

  /** How far the sum of the triangle can miss 1 at this spacing. */
  function TriangleMiss(s: real): real
    requires s > 0.0
  {
    s * s * Bump(1.0 / s)
  }

  lemma FracSum(z: real, r: real)
    ensures var f := Frac(z) + Frac(r); Frac(z + r) == if f < 1.0 then f else f - 1.0
    ensures var f := Frac(z) - Frac(r); Frac(z - r) == if f >= 0.0 then f else f + 1.0
  {
    var f, g := Frac(z), Frac(r);
    assert z + r == (z.Floor + r.Floor) as real + (f + g);
    assert z - r == (z.Floor - r.Floor) as real + (f - g);
    FracShift(f + g, z.Floor + r.Floor);
    FracShift(f - g, z.Floor - r.Floor);
  }

  /** Second differences of the bumps at any distance are largest where a bump begins. */
  lemma BumpDifference(z: real, r: real)
    ensures -Bump(r) <= (Bump(z + r) - 2.0 * Bump(z) + Bump(z - r)) / 2.0 <= Bump(r)
    ensures Frac(z) == 0.0 ==> (Bump(z + r) - 2.0 * Bump(z) + Bump(z - r)) / 2.0 == Bump(r)
  {
    FracSum(z, r);
    var a, g := Frac(z), Frac(r);
    hide Frac;
    assert Bump(z) == a - a * a && Bump(r) == g - g * g;
    var up, down := Frac(z + r), Frac(z - r);
    assert Bump(z + r) == up - up * up && Bump(z - r) == down - down * down;
    assert (a + g) * (a + g) == a * a + 2.0 * (a * g) + g * g && (a - g) * (a - g) == a * a - 2.0 * (a * g) + g * g;
    assert (a + g - 1.0) * (a + g - 1.0) == a * a + 2.0 * (a * g) + g * g - 2.0 * a - 2.0 * g + 1.0;
    assert (a - g + 1.0) * (a - g + 1.0) == a * a - 2.0 * (a * g) + g * g + 2.0 * a - 2.0 * g + 1.0;
    ProductNonNegative(g, 1.0 - g);
    assert g * (1.0 - g) == g - g * g;
    if g <= 0.5 {
      ProductNonNegative(g, 1.0 - 2.0 * g);
      assert g * (1.0 - 2.0 * g) == g - 2.0 * (g * g);
    } else {
      ProductNonNegative(1.0 - g, 2.0 * g - 1.0);
      assert (1.0 - g) * (2.0 * g - 1.0) == 3.0 * g - 2.0 * (g * g) - 1.0;
    }
  }

  lemma TriangleRipple(x: real, s: real)
    requires 0.0 < s <= 1.0
    ensures -TriangleMiss(s) <= Ripple(Triangle, x, s) <= TriangleMiss(s)
    ensures Frac(x / s) == 0.0 ==> Ripple(Triangle, x, s) == TriangleMiss(s)
  {
    hide Bump, Frac;
    var d := (Bump((x + 1.0) / s) - 2.0 * Bump(x / s) + Bump((x - 1.0) / s)) / 2.0;
    assert (x + 1.0) / s == x / s + 1.0 / s && (x - 1.0) / s == x / s - 1.0 / s;
    BumpDifference(x / s, 1.0 / s);
    assert s * s > 0.0;
    Between(d, -Bump(1.0 / s), Bump(1.0 / s), s * s);
    assert Ripple(Triangle, x, s) == s * s * d;
  }

  /** The miss is below a tenth exactly if the spacing is not between (15 - sqrt(5)) / 20 and (15 + sqrt(5)) / 20. */
  lemma TriangleMissIsSmall(s: real)
    requires 0.0 < s <= 1.0
    ensures TriangleMiss(s) < 0.1 <==> 20.0 * s * s - 30.0 * s + 11.0 > 0.0
    ensures 0.0 <= TriangleMiss(s) <= 0.25
  {
    if s > 0.5 { WideMiss(s); } else { NarrowMiss(s); }
  }

  lemma WideMiss(s: real)
    requires 0.5 < s <= 1.0
    ensures TriangleMiss(s) == 3.0 * s - 2.0 * (s * s) - 1.0
    ensures TriangleMiss(s) < 0.1 <==> 20.0 * s * s - 30.0 * s + 11.0 > 0.0
    ensures 0.0 <= TriangleMiss(s) <= 0.25
  {
    var r := 1.0 / s;
    assert s * r == 1.0;
    BetweenOneAndTwo(s, r);
    var f := Frac(r);
    hide Frac;
    var q := s * s;
    assert q * (f * (1.0 - f)) == (s * r - s) * (2.0 * s - s * r);
    assert (1.0 - s) * (2.0 * s - 1.0) == 3.0 * s - 2.0 * q - 1.0;
    ProductNonNegative(1.0 - s, 2.0 * s - 1.0);
    Vertex(s, 0.75);
    assert 20.0 * s * s == 20.0 * q;
  }

  lemma NarrowMiss(s: real)
    requires 0.0 < s <= 0.5
    ensures TriangleMiss(s) < 0.1 && 20.0 * s * s - 30.0 * s + 11.0 > 0.0
    ensures 0.0 <= TriangleMiss(s) <= 0.25
  {
    var q, b, f := s * s, Bump(1.0 / s), Frac(1.0 / s);
    assert b == f * (1.0 - f);
    hide Frac;
    Vertex(f, 0.5);
    ProductNonNegative(f, 1.0 - f);
    assert f * (1.0 - f) == f - f * f;
    ProductNonNegative(0.5 - s, 0.5 + s);
    ProductNonNegative(q, b);
    ProductNonNegative(q, 0.25 - b);
    assert q * (0.25 - b) == 0.25 * q - q * b;
    ProductNonNegative(0.5 - s, 1.0 - s);
    assert (0.5 - s) * (1.0 - s) == 0.5 - 1.5 * s + q && (0.5 - s) * (0.5 + s) == 0.25 - q;
    assert 20.0 * s * s == 20.0 * q;
    assert TriangleMiss(s) == q * b;
  }

  lemma BetweenOneAndTwo(s: real, r: real)
    requires 0.5 < s <= 1.0 && s * r == 1.0
    ensures 1.0 <= r < 2.0
    ensures Frac(r) == r - 1.0
  {
    assert r < 1.0 ==> s * (1.0 - r) > 0.0;
    assert r >= 2.0 ==> s * (r - 2.0) >= 0.0;
  }
}
