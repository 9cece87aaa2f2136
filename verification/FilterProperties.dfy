/** What the filters and ranges guarantee: whole coverage, no empty coefficient group, and weights
    that sum to one when upsampling. */
module FilterProperties {
  import opened SampleRanges
  import opened Sums

  // ----- Coverage, for a source region inside [0, 1] -----

  /** The transform of a region [t0, t1] of `inputSize` samples onto `outputSize` samples. */
  function Scale(inputSize: nat, outputSize: nat, t0: real, t1: real): (scale: real)
    requires inputSize > 0 && outputSize > 0 && t0 < t1
    ensures scale > 0.0
  {
    (outputSize as real / inputSize as real) / (t1 - t0)
  }

  function Shift(outputSize: nat, t0: real, t1: real): real
    requires t0 < t1
  {
    t0 * outputSize as real / (t1 - t0)
  }

  ghost predicate Region(inputSize: nat, outputSize: nat, t0: real, t1: real) {
    inputSize > 0 && outputSize > 0 && 0.0 <= t0 < t1 <= 1.0
  }

  /** Positions 0 and `outputSize` of the output lie in the input, which ends no sooner. */
  lemma RegionBounds(inputSize: nat, outputSize: nat, t0: real, t1: real)
    requires Region(inputSize, outputSize, t0, t1)
    ensures var scale, shift := Scale(inputSize, outputSize, t0, t1), Shift(outputSize, t0, t1);
      0.0 <= shift && outputSize as real + shift <= inputSize as real * scale
  {
    var scale, shift := Scale(inputSize, outputSize, t0, t1), Shift(outputSize, t0, t1);
    var w, i, o := t1 - t0, inputSize as real, outputSize as real;
    assert shift * w == t0 * o;
    assert o / i * i == o;
    assert scale * w == o / i;
    assert i * scale * w == i * (scale * w) == o;
    assert (o + shift) * w == o * w + t0 * o == o * t1;
    assert (i * scale - (o + shift)) * w == o * (1.0 - t1) >= 0.0;
  }

  lemma HalfCeil(w: real)
    requires 1.0 < w
    ensures 1 <= Ceil(w) / 2 && w <= 2.0 * (Ceil(w) / 2) as real + 1.0
  {}

  lemma MarginBounds(f: Filter, scale: real)
    requires 0.0 < scale <= 1.0
    ensures var m := FilterPixelMargin(f, scale);
      1 <= m && Support(f, scale) <= (m as real + 0.5) * scale
  {
    SupportBounds(f, scale);
    var s := Support(f, scale);
    hide Support, Ceil;
    assert s * 2.0 / scale * scale == s * 2.0;
    MarginArithmetic(s, scale, s * 2.0 / scale);
  }

  lemma MarginArithmetic(s: real, scale: real, w: real)
    requires 0.0 < scale <= 1.0 && 0.5 < s && w * scale == s * 2.0
    ensures var m := Ceil(w) / 2; 1 <= m && s <= (m as real + 0.5) * scale
  {
    hide Ceil;
    LessByFactor(1.0, w, scale);
    HalfCeil(w);
    var b := (Ceil(w) / 2) as real + 0.5;
    MulMonotone(w, b + b, scale);
    Distribute(b, b, scale);
  }

  lemma Distribute(a: real, b: real, c: real)
    ensures (a + b) * c == a * c + b * c
  {}

  lemma MulMonotone(a: real, b: real, c: real)
    requires a <= b && c >= 0.0
    ensures a * c <= b * c
  {
    assert (b - a) * c >= 0.0;
  }

  lemma LessByFactor(a: real, b: real, c: real)
    requires c > 0.0 && a * c < b * c
    ensures a < b
  {
    assert a >= b ==> (a - b) * c >= 0.0;
  }

  lemma WindowReaches(center: real, support: real, edge: int)
    requires 0.5 < support
    ensures center <= edge as real ==> Window(center, support).first <= edge
    ensures center >= edge as real ==> Window(center, support).last >= edge - 1
  {}

  /** The first input line considered reaches back to the first output line or before it, the last
      one to the last output line or beyond it. */
  lemma EdgesAreReached(f: Filter, inputSize: nat, outputSize: nat, t0: real, t1: real)
    requires Region(inputSize, outputSize, t0, t1) && Scale(inputSize, outputSize, t0, t1) <= 1.0
    ensures var scale, shift := Scale(inputSize, outputSize, t0, t1), Shift(outputSize, t0, t1);
      var margin := FilterPixelMargin(f, scale);
      && SampleRange(f, scale, shift, -margin).first <= 0
      && SampleRange(f, scale, shift, inputSize + margin - 1).last >= outputSize - 1
  {
    hide Scale, Shift, FilterPixelMargin, Support, SampleRange, Window, Center;
    var scale, shift := Scale(inputSize, outputSize, t0, t1), Shift(outputSize, t0, t1);
    RegionBounds(inputSize, outputSize, t0, t1);
    var margin := FilterPixelMargin(f, scale);
    MarginBounds(f, scale);
    SupportBounds(f, scale);
    var y := inputSize + margin - 1;
    SampleRangeIsWindow(f, scale, shift, -margin);
    SampleRangeIsWindow(f, scale, shift, y);
    CenterBounds(scale, shift, -margin, inputSize, outputSize);
    CenterBounds(scale, shift, y, inputSize, outputSize);
    WindowReaches(Center(scale, shift, -margin), Support(f, scale), 0);
    WindowReaches(Center(scale, shift, y), Support(f, scale), outputSize);
  }

  lemma CenterBounds(scale: real, shift: real, n: int, inputSize: nat, outputSize: nat)
    requires 0.0 < scale <= 1.0 && 0.0 <= shift && outputSize as real + shift <= inputSize as real * scale
    ensures n < 0 ==> Center(scale, shift, n) <= 0.0
    ensures n >= inputSize ==> Center(scale, shift, n) >= outputSize as real
  {
    if n < 0 { MulMonotone(n as real + 0.5, 0.0, scale); }
    if n >= inputSize { MulMonotone(inputSize as real, n as real + 0.5, scale); }
  }

  lemma KernelHasSupport(f: Filter, x: real, scale: real)
    requires 0.0 < scale <= 1.0 && Kernel(f, x, scale) != 0.0
    ensures -Support(f, scale) < x < Support(f, scale)
  {}

  /** No line outside the margin has weight on an output line. */
  lemma MarginSuffices(f: Filter, inputSize: nat, outputSize: nat, t0: real, t1: real, y: int, k: int)
    requires Region(inputSize, outputSize, t0, t1) && Scale(inputSize, outputSize, t0, t1) <= 1.0
    requires 0 <= k < outputSize
    requires var scale, shift := Scale(inputSize, outputSize, t0, t1), Shift(outputSize, t0, t1);
      Kernel(f, k as real + 0.5 - Center(scale, shift, y), scale) != 0.0
    ensures var margin := FilterPixelMargin(f, Scale(inputSize, outputSize, t0, t1));
      -margin <= y < inputSize + margin
  {
    hide Scale, Shift, FilterPixelMargin, Support, Kernel;
    var scale, shift := Scale(inputSize, outputSize, t0, t1), Shift(outputSize, t0, t1);
    RegionBounds(inputSize, outputSize, t0, t1);
    MarginBounds(f, scale);
    KernelHasSupport(f, k as real + 0.5 - Center(scale, shift, y), scale);
    var p, i, m, c := y as real + 0.5, inputSize as real, FilterPixelMargin(f, scale) as real + 0.5, k as real + 0.5;
    assert Center(scale, shift, y) == p * scale - shift;
    hide Center;
    InsideMargin(p, i, m, scale, c + shift);
  }

  lemma InsideMargin(p: real, i: real, m: real, scale: real, c: real)
    requires scale > 0.0 && 0.0 <= c <= i * scale
    requires -(m * scale) < c - p * scale < m * scale
    ensures -m < p < i + m
  {
    assert (i + m) * scale == i * scale + m * scale && (-m) * scale == -(m * scale);
    LessByFactor(p, i + m, scale);
    LessByFactor(-m, p, scale);
  }

  // ----- Weights -----

  lemma CubicFactors(a: real)
    ensures 8.0 + a * (-12.0 + a * (6.0 - a)) == (2.0 - a) * ((2.0 - a) * (2.0 - a))
    ensures 2.0 - a * (4.0 + a * (0.5 * a - 2.5)) == (1.0 - a) * ((2.0 - a) * (2.0 - a)) / 2.0
    ensures 32.0 + a * (-60.0 + a * (36.0 - 7.0 * a)) == (8.0 - 7.0 * a) * ((2.0 - a) * (2.0 - a))
  {}

  ghost function Weight(f: Filter, center: real, scale: real): int -> real
    requires 0.0 < scale <= 1.0
  {
    k => Kernel(f, k as real + 0.5 - center, scale)
  }

  /** Every coefficient group has a nonzero coefficient, at one of its first two places. */
  lemma GroupHasWeight(f: Filter, center: real, scale: real)
    requires 0.0 < scale <= 1.0
    ensures var r := Window(center, Support(f, scale));
      exists k :: r.first <= k <= r.last && Weight(f, center, scale)(k) != 0.0
  {
    var r := Window(center, Support(f, scale));
    var x := r.first as real + 0.5 - center;
    assert -Support(f, scale) < x <= 1.0 - Support(f, scale);
    assert r.first <= r.last;
    var root := (f == CatmullRom && x == -1.0) || (f == Mitchell && 7.0 * x == -8.0);
    if root { NonzeroAfterRoot(f, x + 1.0, scale); } else { NonzeroAtFirst(f, x, scale); }
    var k := if root then r.first + 1 else r.first;
    assert r.first <= k <= r.last;
    hide Kernel;
    assert k as real + 0.5 - center == if root then x + 1.0 else x;
    assert Weight(f, center, scale)(k) != 0.0;
  }

  lemma NonzeroAtFirst(f: Filter, x: real, scale: real)
    requires 0.0 < scale <= 1.0 && -Support(f, scale) < x <= 1.0 - Support(f, scale)
    requires f == CatmullRom ==> x != -1.0
    requires f == Mitchell ==> 7.0 * x != -8.0
    ensures Kernel(f, x, scale) != 0.0
  {
    if f == Box {
      BoxPositive(x, scale);
    } else if f != Triangle {
      var a := -x;
      CubicFactors(a);
      var b := 2.0 - a;
      NonzeroCubic(2.0 - a, b);
      NonzeroCubic(1.0 - a, b);
      NonzeroCubic(8.0 - 7.0 * a, b);
    }
  }

  lemma BoxPositive(x: real, scale: real)
    requires 0.0 < scale <= 1.0 && Abs(x) < 0.5 + scale / 2.0
    ensures Kernel(Box, x, scale) > 0.0
  {
    var d := 0.5 + scale / 2.0 - Abs(x);
    assert d / scale * scale == d;
  }

  lemma NonzeroProduct(a: real, b: real)
    requires b != 0.0
    ensures a * b == 0.0 <==> a == 0.0
  {}

  lemma NonzeroCubic(c: real, b: real)
    requires b != 0.0
    ensures c * (b * b) == 0.0 <==> c == 0.0
  {
    NonzeroProduct(c, b);
    NonzeroProduct(c * b, b);
    assert c * (b * b) == c * b * b;
  }

  lemma NonzeroAfterRoot(f: Filter, x: real, scale: real)
    requires 0.0 < scale <= 1.0
    requires (f == CatmullRom && x == 0.0) || (f == Mitchell && 7.0 * x == -1.0)
    ensures Kernel(f, x, scale) != 0.0
  {
    if f == Mitchell {
      var a := Abs(x);
      assert a == 1.0 / 7.0;
    }
  }

  /** The kernels are partitions of unity: over any window, and so whenever an image is enlarged,
      the weights sum to exactly one. */
  lemma WeightsSumToOne(f: Filter, center: real, scale: real)
    requires 0.0 < scale <= 1.0
    ensures var r := Window(center, Support(f, scale)); Sum(Weight(f, center, scale), r.first, r.last + 1) == 1.0
  {
    var r := Window(center, Support(f, scale));
    var w := Weight(f, center, scale);
    var x := r.first as real + 0.5 - center;
    if f == Box {
      BoxWindow(center, scale);
      BoxUnity(x, scale, r.first == r.last);
    } else if f == Triangle {
      assert r.last == r.first + 1;
      TriangleUnity(x, scale);
    } else {
      assert r.last == r.first + 3;
      CubicUnity(f, x, scale);
    }
    hide Kernel, Window;
    var lo := r.first;
    assert w(lo) == Kernel(f, x, scale);
    assert (lo + 1) as real + 0.5 - center == x + 1.0 && w(lo + 1) == Kernel(f, x + 1.0, scale);
    assert (lo + 2) as real + 0.5 - center == x + 2.0 && w(lo + 2) == Kernel(f, x + 2.0, scale);
    assert (lo + 3) as real + 0.5 - center == x + 3.0 && w(lo + 3) == Kernel(f, x + 3.0, scale);
    hide Weight;
    SmallSums(w, lo);
  }

  lemma SmallSums(w: int -> real, lo: int)
    ensures Sum(w, lo, lo + 1) == w(lo)
    ensures Sum(w, lo, lo + 2) == w(lo) + w(lo + 1)
    ensures Sum(w, lo, lo + 4) == w(lo) + w(lo + 1) + w(lo + 2) + w(lo + 3)
  {
    assert Sum(w, lo, lo) == 0.0;
    assert Sum(w, lo, lo + 1) == w(lo);
    assert Sum(w, lo, lo + 2) == w(lo) + w(lo + 1);
    assert Sum(w, lo, lo + 3) == Sum(w, lo, lo + 2) + w(lo + 2);
  }

  lemma BoxWindow(center: real, scale: real)
    requires 0.0 < scale <= 1.0
    ensures var r := Window(center, 0.5 + scale / 2.0);
      var x := r.first as real + 0.5 - center;
      && (r.first == r.last || r.last == r.first + 1)
      && if r.first == r.last then scale / 2.0 - 0.5 < x <= 0.5 - scale / 2.0
         else -0.5 - scale / 2.0 < x <= scale / 2.0 - 0.5
  {}

  lemma BoxUnity(x: real, scale: real, single: bool)
    requires 0.0 < scale <= 1.0
    requires if single then scale / 2.0 - 0.5 < x <= 0.5 - scale / 2.0
             else -0.5 - scale / 2.0 < x <= scale / 2.0 - 0.5
    ensures single ==> Kernel(Box, x, scale) == 1.0
    ensures !single ==> Kernel(Box, x, scale) + Kernel(Box, x + 1.0, scale) == 1.0
  {
    if !single {
      var t := 0.5 + scale / 2.0;
      Quotients(t + x, t - (x + 1.0), scale);
      assert Kernel(Box, x, scale) == (t + x) / scale by {
        if x == scale / 2.0 - 0.5 { assert t + x == scale; }
      }
    }
  }

  lemma Quotients(a: real, b: real, c: real)
    requires c > 0.0 && a + b == c
    ensures a / c + b / c == 1.0
  {
    var u, v := a / c, b / c;
    assert u * c == a && v * c == b && (u + v - 1.0) * c == u * c + v * c - c;
    NonzeroProduct(u + v - 1.0, c);
  }

  lemma TriangleUnity(x: real, scale: real)
    requires 0.0 < scale <= 1.0 && -1.0 < x <= 0.0
    ensures Kernel(Triangle, x, scale) + Kernel(Triangle, x + 1.0, scale) == 1.0
  {}

  lemma CubicUnity(f: Filter, x: real, scale: real)
    requires 0.0 < scale <= 1.0 && -2.0 < x <= -1.0
    requires f.CubicBSpline? || f.CatmullRom? || f.Mitchell?
    ensures 1.0 ==
      Kernel(f, x, scale) + Kernel(f, x + 1.0, scale) + Kernel(f, x + 2.0, scale) + Kernel(f, x + 3.0, scale)
  {}
}
