/** The total weight on each output sample of a shrink, before it is normalised (src/stb/stb_image_resize.h): what
    the normalising loop divides by, and asserts to be between 0.9 and 1.1. */
module Totals {
  import opened SampleRanges
  import opened FilterProperties
  import opened Coefficients
  import opened CalculateFilters
  import opened LatticeSums

  /** How far output sample `i` is from input line 0, in output samples. */
  function OutputPosition(scale: real, shift: real, i: int): real {
    i as real + 0.5 + shift - scale / 2.0
  }

  /** What all input lines together put on output sample `i`. */
  ghost function Total(f: Filter, input: nat, scale: real, shift: real, i: int): real
    requires 0.0 < scale <= 1.0
  {
    ColumnSum(DownsampleWeights(f, scale, shift), input + 2 * FilterPixelMargin(f, scale), i)
  }

  /** Line `j - margin` is a step of one scale further away than the line before it. */
  lemma LineDistance(scale: real, shift: real, margin: int, i: int, j: int)
    requires 0.0 < scale <= 1.0
    ensures i as real + 0.5 - Center(scale, shift, j - margin) ==
            Point(Point(OutputPosition(scale, shift, i), scale, -margin), scale, j)
  {
    var a, b, c, d := j as real, margin as real, (j - margin) as real, (-margin) as real;
    assert Center(scale, shift, j - margin) == (c + 0.5) * scale - shift;
    StepsOf(a, b, c, d, scale);
    assert Point(Point(OutputPosition(scale, shift, i), scale, -margin), scale, j) ==
           i as real + 0.5 + shift - scale / 2.0 - d * scale - a * scale;
    hide *;
  }

  lemma StepsOf(a: real, b: real, c: real, d: real, scale: real)
    requires c == a - b && d == -b
    ensures (c + 0.5) * scale == a * scale + d * scale + scale / 2.0
  {}

  /** The total of an output sample in closed form: 1 and the ripple of its position. */
  lemma TotalIs(f: Filter, input: nat, output: nat, t0: real, t1: real, i: int)
    requires Region(input, output, t0, t1) && Scale(input, output, t0, t1) <= 1.0 && 0 <= i < output
    ensures var scale, shift := Scale(input, output, t0, t1), Shift(output, t0, t1);
      Total(f, input, scale, shift, i) == 1.0 + Ripple(f, OutputPosition(scale, shift, i), scale)
  {
    var scale, shift := Scale(input, output, t0, t1), Shift(output, t0, t1);
    RegionBounds(input, output, t0, t1);
    hide Scale, Shift;
    TotalAt(f, input, output, scale, shift, i);
  }

  lemma TotalAt(f: Filter, input: nat, output: nat, scale: real, shift: real, i: int)
    requires 0.0 < scale <= 1.0 && 0.0 <= shift && output as real + shift <= input as real * scale && 0 <= i < output
    ensures Total(f, input, scale, shift, i) == 1.0 + Ripple(f, OutputPosition(scale, shift, i), scale)
  {
    hide Kernel, Support, Ripple, FilterPixelMargin, Point, Center, OutputPosition;
    MarginBounds(f, scale);
    var margin := FilterPixelMargin(f, scale);
    var groups := input + 2 * margin;
    var column := j => DownsampleWeights(f, scale, shift)(j, i);
    var x := Point(OutputPosition(scale, shift, i), scale, -margin);
    forall j | 0 <= j < groups
      ensures column(j) == scale * Kernel(f, Point(x, scale, j), scale)
    {
      LineDistance(scale, shift, margin, i, j);
      WeightIs(f, scale, shift, j, i);
    }
    Reach(input, output, scale, shift, i, margin, Support(f, scale));
    WholeSum(f, x, scale, column, groups);
    RipplePeriods(f, OutputPosition(scale, shift, i), scale, margin);
  }

  lemma WeightIs(f: Filter, scale: real, shift: real, j: int, i: int)
    requires 0.0 < scale <= 1.0
    ensures DownsampleWeights(f, scale, shift)(j, i) ==
            scale * Kernel(f, i as real + 0.5 - Center(scale, shift, j - FilterPixelMargin(f, scale)), scale)
  {
    hide Kernel, Center, FilterPixelMargin;
    var k := Weight(f, Center(scale, shift, j - FilterPixelMargin(f, scale)), scale)(i);
    assert DownsampleWeights(f, scale, shift)(j, i) == k * scale;
  }

  /** The lines reach from one end of the filter's support to the other. */
  lemma Reach(input: nat, output: nat, scale: real, shift: real, i: int, margin: int, support: real)
    requires 0.0 < scale <= 1.0 && 0.0 <= shift && output as real + shift <= input as real * scale && 0 <= i < output
    requires support <= (margin as real + 0.5) * scale
    ensures var x := Point(OutputPosition(scale, shift, i), scale, -margin);
      x >= support - scale && Point(x, scale, input + 2 * margin) <= -support
  {
    var m, n := margin as real, input as real;
    assert (m + 0.5) * scale == m * scale + scale / 2.0;
    assert (-margin) as real * scale == -(m * scale);
    assert (input + 2 * margin) as real * scale == n * scale + 2.0 * (m * scale);
  }

  // ----- What the source asserts of it -----

  ghost predicate Asserted(total: real) { 0.9 < total < 1.1 }

  /** The box adds up to 1 already: normalising changes nothing. */
  lemma BoxTotal(input: nat, output: nat, t0: real, t1: real, i: int)
    requires Region(input, output, t0, t1) && Scale(input, output, t0, t1) <= 1.0 && 0 <= i < output
    ensures Total(Box, input, Scale(input, output, t0, t1), Shift(output, t0, t1), i) == 1.0
  {
    hide Scale, Shift, Total;
    TotalIs(Box, input, output, t0, t1, i);
  }

  /** For the cubic filters what the source asserts always holds. */
  lemma CubicTotal(f: Filter, input: nat, output: nat, t0: real, t1: real, i: int)
    requires Region(input, output, t0, t1) && Scale(input, output, t0, t1) <= 1.0 && 0 <= i < output && IsCubic(f)
    ensures Asserted(Total(f, input, Scale(input, output, t0, t1), Shift(output, t0, t1), i))
  {
    hide Scale, Shift, Total, Ripple, OutputPosition;
    TotalIs(f, input, output, t0, t1, i);
    var scale, shift := Scale(input, output, t0, t1), Shift(output, t0, t1);
    CubicRipple(f, OutputPosition(scale, shift, i), scale);
  }

  /** The triangle stays within its miss at that scale, and reaches it at a sample centred on a line. */
  lemma TriangleTotal(input: nat, output: nat, t0: real, t1: real, i: int)
    requires Region(input, output, t0, t1) && Scale(input, output, t0, t1) <= 1.0 && 0 <= i < output
    ensures var scale, shift := Scale(input, output, t0, t1), Shift(output, t0, t1);
      var total := Total(Triangle, input, scale, shift, i);
      && 1.0 - TriangleMiss(scale) <= total <= 1.0 + TriangleMiss(scale)
      && (Frac(OutputPosition(scale, shift, i) / scale) == 0.0 ==> total == 1.0 + TriangleMiss(scale))
  {
    hide Scale, Shift, Total, Ripple, OutputPosition, TriangleMiss, Frac;
    TotalIs(Triangle, input, output, t0, t1, i);
    var scale, shift := Scale(input, output, t0, t1), Shift(output, t0, t1);
    TriangleRipple(OutputPosition(scale, shift, i), scale);
  }

  /** No output sample of any shrink loses its weight, so normalising never divides by zero. */
  lemma TotalIsPositive(f: Filter, input: nat, output: nat, t0: real, t1: real, i: int)
    requires Region(input, output, t0, t1) && Scale(input, output, t0, t1) <= 1.0 && 0 <= i < output
    ensures Total(f, input, Scale(input, output, t0, t1), Shift(output, t0, t1), i) >= 0.75
  {
    hide Scale, Shift, Total, OutputPosition, TriangleMiss, Frac;
    match f
    case Box => BoxTotal(input, output, t0, t1, i);
    case Triangle =>
      TriangleTotal(input, output, t0, t1, i);
      TriangleMissIsSmall(Scale(input, output, t0, t1));
    case _ => CubicTotal(f, input, output, t0, t1, i);
  }

  ghost predicate AllAsserted(f: Filter, input: nat, output: nat, t0: real, t1: real)
    requires Region(input, output, t0, t1) && Scale(input, output, t0, t1) <= 1.0
  {
    forall i :: 0 <= i < output ==> Asserted(Total(f, input, Scale(input, output, t0, t1), Shift(output, t0, t1), i))
  }

  /** At a scale between (15 - sqrt(5)) / 20 and (15 + sqrt(5)) / 20, about 0.638 and 0.862, and at no other,
      the triangle breaks the assertion for some sizes and region. */
  lemma TriangleAssertion(scale: real)
    requires 0.0 < scale <= 1.0
    ensures (forall input: nat, output: nat, t0: real, t1: real ::
               Region(input, output, t0, t1) && Scale(input, output, t0, t1) == scale ==>
               AllAsserted(Triangle, input, output, t0, t1))
            <==> 20.0 * scale * scale - 30.0 * scale + 11.0 > 0.0
  {
    hide Scale, Total, Shift, TriangleMiss;
    TriangleMissIsSmall(scale);
    if TriangleMiss(scale) < 0.1 {
      forall input: nat, output: nat, t0: real, t1: real, i |
          Region(input, output, t0, t1) && Scale(input, output, t0, t1) == scale && 0 <= i < output
        ensures Asserted(Total(Triangle, input, scale, Shift(output, t0, t1), i))
      {
        TriangleTotal(input, output, t0, t1, i);
      }
    } else {
      var input, t0, t1 := CentredRegion(scale);
      TriangleTotal(input, 1, t0, t1, 0);
      assert !Asserted(Total(Triangle, input, scale, Shift(1, t0, t1), 0));
      assert !AllAsserted(Triangle, input, 1, t0, t1);
    }
  }

  /** One output sample over the middle of an odd number of lines, at any scale. */
  lemma CentredRegion(scale: real) returns (input: nat, t0: real, t1: real)
    requires 0.0 < scale <= 1.0
    ensures Region(input, 1, t0, t1) && Scale(input, 1, t0, t1) == scale
    ensures Frac(OutputPosition(scale, Shift(1, t0, t1), 0) / scale) == 0.0
  {
    var r := 1.0 / scale;
    assert scale * r == 1.0;
    assert r >= 1.0 by { assert r < 1.0 ==> scale * (1.0 - r) > 0.0; }
    var k: nat := r.Floor + 1;
    input := 2 * k + 1;
    var n := input as real;
    var width := r / n;
    assert width * n == r;
    LessByFactor(0.0, width, n);
    LessByFactor(width, 1.0, n);
    t0, t1 := 0.5 - width / 2.0, 0.5 + width / 2.0;
    hide *;
    CentredIs(scale, r, k, input, width, t0, t1);
  }

  lemma CentredIs(scale: real, r: real, k: nat, input: nat, width: real, t0: real, t1: real)
    requires 0.0 < scale <= 1.0 && scale * r == 1.0 && input == 2 * k + 1 && 0.0 < width < 1.0
    requires width * input as real == r
    requires t0 == 0.5 - width / 2.0 && t1 == 0.5 + width / 2.0
    ensures Region(input, 1, t0, t1) && Scale(input, 1, t0, t1) == scale
    ensures Frac(OutputPosition(scale, Shift(1, t0, t1), 0) / scale) == 0.0
  {
    var n := input as real;
    assert t1 - t0 == width;
    CentredScale(scale, r, n, width);
    CentredPosition(scale, r, n, width, t0);
    assert Shift(1, t0, t1) == t0 / width;
    var shift := Shift(1, t0, t1);
    hide Frac, Shift, Scale, Region;
    assert (n - 1.0) / 2.0 == k as real;
    assert OutputPosition(scale, shift, 0) == k as real * scale;
    OnLine(scale, k);
  }

  lemma OnLine(scale: real, k: nat)
    requires scale > 0.0
    ensures Frac(k as real * scale / scale) == 0.0
  {
    var q := k as real * scale / scale;
    assert q * scale == k as real * scale;
    assert (q - k as real) * scale == 0.0;
    FracShift(0.0, k);
  }

  lemma CentredScale(scale: real, r: real, n: real, width: real)
    requires scale > 0.0 && n > 0.0 && width > 0.0 && scale * r == 1.0 && width * n == r
    ensures 1.0 / n / width == scale && 1.0 / width == n * scale
  {
    assert scale * width * n == 1.0;
    assert 1.0 / n == scale * width;
  }

  lemma CentredPosition(scale: real, r: real, n: real, width: real, t0: real)
    requires scale > 0.0 && n > 0.0 && width > 0.0 && scale * r == 1.0 && width * n == r
    requires t0 == 0.5 - width / 2.0
    ensures 0.5 + t0 / width - scale / 2.0 == (n - 1.0) / 2.0 * scale
  {
    CentredScale(scale, r, n, width);
    var q := t0 / width;
    assert q * width == t0 && 1.0 / width * width == 1.0;
    assert (0.5 * (1.0 / width) - 0.5) * width == t0;
    assert (q - (0.5 * (1.0 / width) - 0.5)) * width == 0.0;
    assert q == 0.5 * (n * scale) - 0.5;
  }

  /** Seven lines on five samples: the middle one gets 55 / 49, above the asserted bound of 1.1. */
  lemma TriangleExceeds()
    ensures Region(7, 5, 0.0, 1.0) && Scale(7, 5, 0.0, 1.0) == 5.0 / 7.0
    ensures Total(Triangle, 7, 5.0 / 7.0, Shift(5, 0.0, 1.0), 2) == 55.0 / 49.0 > 1.1
  {
    hide Total, Frac;
    var scale := 5.0 / 7.0;
    OnLine(scale, 3);
    assert OutputPosition(scale, Shift(5, 0.0, 1.0), 2) == 3.0 * scale;
    TriangleTotal(7, 5, 0.0, 1.0, 2);
    WideMiss(scale);
  }

  /** Three quarters of two lines on one sample: it gets 8 / 9, below the asserted bound of 0.9. */
  lemma TriangleFallsShort()
    ensures Region(2, 1, 0.125, 0.875) && Scale(2, 1, 0.125, 0.875) == 2.0 / 3.0
    ensures Total(Triangle, 2, 2.0 / 3.0, Shift(1, 0.125, 0.875), 0) == 8.0 / 9.0 < 0.9
  {
    hide Total;
    var scale := 2.0 / 3.0;
    var x := 1.0 / 3.0;
    assert OutputPosition(scale, Shift(1, 0.125, 0.875), 0) == x;
    TotalIs(Triangle, 2, 1, 0.125, 0.875, 0);
    assert (x + 1.0) / scale == 2.0 && x / scale == 0.5 && (x - 1.0) / scale == -1.0;
    assert Bump(2.0) == 0.0 && Bump(0.5) == 0.25 && Bump(-1.0) == 0.0;
  }
}
