/** Where a resize puts what it takes from the source (stbir__calculate_transform and the filters of
    src/stb/stb_image_resize.h), in terms of the sizes and the region alone. */
module Placement {
  import opened SampleRanges
  import opened FilterProperties
  import opened Sums
  import opened Coefficients
  import opened CalculateFilters
  import opened Totals
  import opened Resize

  // ----- Positions -----

  /** How many output samples there are to an input sample. */
  ghost function Zoom(a: Axis): real
    requires a.Valid()
  {
    a.output as real / (a.input as real * (a.t1 - a.t0))
  }

  /** Where the middle of output sample `x` is in the input: as far along the region as `x` is along the output. */
  ghost function Position(a: Axis, x: int): real
    requires a.Valid()
  {
    (a.t0 + (x as real + 0.5) / a.output as real * (a.t1 - a.t0)) * a.input as real
  }

  lemma ScaleIsZoom(a: Axis)
    requires a.Valid()
    ensures a.Scale() == Zoom(a) > 0.0
    ensures a.Shift() == a.t0 * a.input as real * Zoom(a)
  {
    var i, o, w := a.input as real, a.output as real, a.t1 - a.t0;
    var q, z, s, h := o / i, o / (i * w), a.Scale(), a.Shift();
    assert i * w > 0.0;
    assert q * i == o && s * w == q && z * (i * w) == o && h * w == a.t0 * o;
    SameFactor(s, z, i * w);
    assert (a.t0 * i * z) * w == a.t0 * (z * (i * w));
    SameFactor(h, a.t0 * i * z, w);
  }

  lemma SameFactor(p: real, q: real, c: real)
    requires c != 0.0 && p * c == q * c
    ensures p == q
  {
    assert (p - q) * c == 0.0;
    if p - q != 0.0 { NonzeroProduct(p - q, c); }
  }

  /** The edges of the output lie on the edges of the region. */
  lemma EdgesMeet(a: Axis)
    requires a.Valid()
    ensures (0.0 + a.Shift()) / a.Scale() == a.t0 * a.input as real
    ensures (a.output as real + a.Shift()) / a.Scale() == a.t1 * a.input as real
  {
    ScaleIsZoom(a);
    var i, o, z, w := a.input as real, a.output as real, Zoom(a), a.t1 - a.t0;
    assert z * (i * w) == o;
    assert (a.t0 * i) * z == a.Shift() && (a.t1 * i) * z == a.Shift() + z * (i * w);
    var p, q := (0.0 + a.Shift()) / z, (o + a.Shift()) / z;
    assert p * z == a.Shift() && q * z == o + a.Shift();
    SameFactor(p, a.t0 * i, z);
    SameFactor(q, a.t1 * i, z);
  }

  lemma PositionInSamples(a: Axis, x: int)
    requires a.Valid()
    ensures Position(a, x) * Zoom(a) == x as real + 0.5 + a.Shift()
  {
    ScaleIsZoom(a);
    var i, o, z, w, m := a.input as real, a.output as real, Zoom(a), a.t1 - a.t0, x as real + 0.5;
    var u := m / o;
    assert u * o == m && z * (i * w) == o;
    assert (a.t0 + u * w) * i * z == a.t0 * i * z + u * (z * (i * w));
  }

  /** When enlarging a sample is centred on its position; when shrinking an input sample lies as far from the output
      sample as from its position, in output samples. */
  lemma SamplesArePlaced(a: Axis, x: int, k: int)
    requires a.Valid()
    ensures Upsampling(a.Scale()) <==> Zoom(a) > 1.0
    ensures Zoom(a) > 1.0 ==> Center(a.Scale(), a.Shift(), x) == Position(a, x)
    ensures Zoom(a) <= 1.0 ==>
      x as real + 0.5 - Center(a.Scale(), a.Shift(), k) == (Position(a, x) - (k as real + 0.5)) * Zoom(a)
  {
    ScaleIsZoom(a);
    PositionInSamples(a, x);
    hide Position, Zoom, Axis.Scale, Axis.Shift;
    var p, z, h, m, n := Position(a, x), Zoom(a), a.Shift(), x as real + 0.5, k as real + 0.5;
    if z > 1.0 {
      var c := (m + h) / z;
      assert c * z == m + h;
      SameFactor(c, p, z);
    } else {
      assert (p - n) * z == p * z - n * z;
    }
  }

  // ----- Weights -----

  /** How far input sample `k` is from output sample `x`: in input samples when enlarging, else in output samples. */
  ghost function Distance(a: Axis, x: int, k: int): real
    requires a.Valid()
  {
    (k as real + 0.5 - Position(a, x)) * if Zoom(a) > 1.0 then 1.0 else Zoom(a)
  }

  /** The kernel at that distance. */
  ghost function KernelAt(a: Axis, x: int, k: int): real
    requires a.Valid()
  {
    ScaleIsZoom(a);
    if Zoom(a) > 1.0 then
      assert 0.0 < 1.0 / Zoom(a) <= 1.0 by { Inverse(Zoom(a)); }
      Kernel(a.f, Distance(a, x, k), 1.0 / Zoom(a))
    else Zoom(a) * Kernel(a.f, Distance(a, x, k), Zoom(a))
  }

  lemma Inverse(z: real)
    requires z > 1.0
    ensures 0.0 < 1.0 / z <= 1.0
  {
    assert 1.0 / z * z == 1.0;
    LessByFactor(0.0, 1.0 / z, z);
    LessByFactor(1.0 / z, 1.0, z);
  }

  lemma EnlargingWeight(a: Axis, x: int, k: int)
    requires a.Valid() && Zoom(a) > 1.0 && 0 <= x < a.output
    ensures a.Weights()(x, k) == KernelAt(a, x, k)
  {
    SamplesArePlaced(a, x, k);
    ScaleIsZoom(a);
    hide Position, Zoom, Axis.Scale, Axis.Shift, Center, Kernel;
    assert a.Weights()(x, k) == Weight(a.f, Center(a.Scale(), a.Shift(), x), FilterScale(a.Scale()))(k);
  }

  lemma ShrinkingWeight(a: Axis, x: int, k: int)
    requires a.Valid() && Zoom(a) <= 1.0
    ensures !Upsampling(a.Scale())
    ensures DownsampleWeights(a.f, a.Scale(), a.Shift())(k + a.Margin(), x) == KernelAt(a, x, k)
  {
    hide Position, Zoom, Distance, KernelAt, Axis.Scale, Axis.Shift;
    hide Center, Kernel, FilterPixelMargin, DownsampleWeights;
    ShrinkingDistance(a, x, k);
    ScaleIsZoom(a);
    ShrinkingWeightAt(a, x, k, k + a.Margin(), a.Scale(), a.Shift(),
                      x as real + 0.5 - Center(a.Scale(), a.Shift(), k));
  }

  lemma ShrinkingDistance(a: Axis, x: int, k: int)
    requires a.Valid() && Zoom(a) <= 1.0
    ensures !Upsampling(a.Scale()) && x as real + 0.5 - Center(a.Scale(), a.Shift(), k) == -Distance(a, x, k)
  {
    SamplesArePlaced(a, x, k);
    hide Position, Zoom, Axis.Scale, Axis.Shift, Center;
  }

  lemma ShrinkingWeightAt(a: Axis, x: int, k: int, j: int, scale: real, shift: real, d: real)
    requires a.Valid() && scale == Zoom(a) && 0.0 < scale <= 1.0 && j == k + FilterPixelMargin(a.f, scale)
    requires d == x as real + 0.5 - Center(scale, shift, k) == -Distance(a, x, k)
    ensures DownsampleWeights(a.f, scale, shift)(j, x) == KernelAt(a, x, k)
  {
    hide *;
    KernelIsMirrored(a, x, k, scale, d);
    WeightAtDistance(a.f, scale, shift, j, x, k, d, KernelAt(a, x, k));
  }

  lemma WeightAtDistance(f: Filter, scale: real, shift: real, j: int, i: int, k: int, d: real, w: real)
    requires 0.0 < scale <= 1.0 && j == k + FilterPixelMargin(f, scale)
    requires d == i as real + 0.5 - Center(scale, shift, k) && w == scale * Kernel(f, d, scale)
    ensures DownsampleWeights(f, scale, shift)(j, i) == w
  {
    hide *;
    WeightIs(f, scale, shift, j, i);
    assert j - FilterPixelMargin(f, scale) == k;
  }

  lemma KernelIsMirrored(a: Axis, x: int, k: int, z: real, d: real)
    requires a.Valid() && z == Zoom(a) && 0.0 < z <= 1.0 && d == -Distance(a, x, k)
    ensures KernelAt(a, x, k) == z * Kernel(a.f, d, z)
  {
    hide Position, Zoom, Kernel, Distance;
    KernelIsEven(a.f, Distance(a, x, k), z);
  }

  lemma ShrinkingTotal(a: Axis, x: int) returns (total: real)
    requires a.Valid() && !Upsampling(a.Scale()) && 0 <= x < a.output
    ensures total >= 0.75
    ensures forall k ::
      a.Weights()(x, k) == DownsampleWeights(a.f, a.Scale(), a.Shift())(k + a.Margin(), x) * (1.0 / total)
  {
    hide DownsampleWeights, ColumnSum;
    total := ColumnSum(DownsampleWeights(a.f, a.Scale(), a.Shift()), a.Groups(), x);
    TotalIsPositive(a.f, a.input, a.output, a.t0, a.t1, x);
    forall k
      ensures a.Weights()(x, k) == DownsampleWeights(a.f, a.Scale(), a.Shift())(k + a.Margin(), x) * (1.0 / total)
    {
      ShrunkWeight(a, x, k);
    }
  }

  lemma ShrunkWeight(a: Axis, x: int, k: int)
    requires a.Valid() && !Upsampling(a.Scale()) && 0 <= x < a.output
    ensures var w := DownsampleWeights(a.f, a.Scale(), a.Shift());
      && ColumnSum(w, a.Groups(), x) != 0.0
      && a.Weights()(x, k) == w(k + a.Margin(), x) * (1.0 / ColumnSum(w, a.Groups(), x))
  {
    hide Axis.Scale, Axis.Shift, Axis.Margin, Axis.Groups, DownsampleWeights, ColumnSum;
    a.TotalsAreKept();
    var w := DownsampleWeights(a.f, a.Scale(), a.Shift());
    assert a.Table() == Clipped(Normalized(w, a.Groups(), a.output), a.output);
    assert a.Weights()(x, k) == a.Table()(k + a.Margin(), x);
    hide Axis.Table, Axis.Weights;
    NormalizedAt(w, a.Groups(), a.output, k + a.Margin(), x);
  }

  lemma NormalizedAt(w: (int, int) -> real, groups: int, n: int, j: int, i: int)
    requires 0 <= i < n && forall k :: 0 <= k < n ==> ColumnSum(w, groups, k) != 0.0
    ensures Clipped(Normalized(w, groups, n), n)(j, i) == w(j, i) * (1.0 / ColumnSum(w, groups, i))
  {
    hide ColumnSum;
  }

  /** The weights in words: the kernel at the distance, up to one factor for all input samples. */
  lemma WeightsInWords(a: Axis, x: int) returns (total: real)
    requires a.Valid() && 0 <= x < a.output
    ensures total >= 0.75 && (Zoom(a) > 1.0 ==> total == 1.0)
    ensures forall k :: a.Weights()(x, k) * total == KernelAt(a, x, k)
  {
    hide KernelAt, Position, Zoom, Axis.Scale, Axis.Shift, Axis.Weights, Axis.Margin, DownsampleWeights;
    SamplesArePlaced(a, x, 0);
    if Zoom(a) > 1.0 {
      total := 1.0;
      forall k ensures a.Weights()(x, k) * total == KernelAt(a, x, k) { EnlargingWeight(a, x, k); }
    } else {
      total := ShrinkingTotal(a, x);
      forall k ensures a.Weights()(x, k) * total == KernelAt(a, x, k) {
        ShrinkingWeight(a, x, k);
        Unscaled(KernelAt(a, x, k), total);
      }
    }
  }

  lemma Unscaled(v: real, total: real)
    requires total > 0.0
    ensures v * (1.0 / total) * total == v
  {
    assert 1.0 / total * total == 1.0;
    assert v * (1.0 / total) * total == v * (1.0 / total * total);
  }

  // ----- Kernels at the samples -----

  /** A filter that does not change samples it meets. */
  predicate Interpolating(f: Filter) { f.Box? || f.Triangle? || f.CatmullRom? }

  lemma KernelsAtSamples(f: Filter, scale: real, n: int)
    requires 0.0 < scale <= 1.0
    ensures f.CubicBSpline? ==>
      Kernel(f, n as real, scale) == if n == 0 then 2.0 / 3.0 else if n == 1 || n == -1 then 1.0 / 6.0 else 0.0
    ensures f.Mitchell? ==>
      Kernel(f, n as real, scale) == if n == 0 then 8.0 / 9.0 else if n == 1 || n == -1 then 1.0 / 18.0 else 0.0
    ensures Interpolating(f) ==> Kernel(f, n as real, scale) == if n == 0 then 1.0 else 0.0
  {}

  /** The box weighs a sample with the part of an output sample's width that it covers, the triangle falls evenly. */
  lemma KernelsOfLines(x: real, scale: real)
    requires 0.0 < scale <= 1.0
    ensures var left, right := Larger(x - scale / 2.0, -0.5), -Larger(-(x + scale / 2.0), -0.5);
      scale * Kernel(Box, x, scale) == Larger(right - left, 0.0)
    ensures Kernel(Triangle, x, scale) == Larger(0.0, 1.0 - Larger(x, -x))
  {
    var t, a := 0.5 + scale / 2.0, Abs(x);
    assert scale * ((t - a) / scale) == t - a;
    assert scale * 1.0 == scale;
  }

  function Larger(x: real, y: real): real { if x < y then y else x }

  // ----- Samples that are met -----

  /** Where an output sample lies on an input sample, an enlargement with an interpolating filter copies it. */
  lemma SamplesAreCopied(a: Axis, line: int -> real, x: int, k: int)
    requires a.Valid() && Interpolating(a.f) && Zoom(a) >= 1.0
    requires 0 <= x < a.output && 0 <= k < a.input && Position(a, x) == k as real + 0.5
    ensures a.Resampled(line, x) == line(k)
  {
    var w := a.Weights();
    SizesArePositive(a);
    var m := a.Margin();
    WeightsAtSample(a, x, k);
    hide Axis.Weights, Axis.Margin, KernelAt, Position, Zoom, Axis.Scale, Axis.Shift;
    var terms := (j: int) => w(x, j) * line(j);
    SumSupport(terms, -m, a.input + m, k, k + 1);
    SmallSums(terms, k);
    SumEqual(terms, j => a.Weights()(x, j) * line(j), -m, a.input + m);
  }

  lemma KernelAtSample(a: Axis, x: int, k: int, j: int)
    requires a.Valid() && Interpolating(a.f) && Zoom(a) >= 1.0 && Position(a, x) == k as real + 0.5
    ensures KernelAt(a, x, j) == if j == k then 1.0 else 0.0
  {
    hide Position, Zoom, Kernel, Region;
    var z := Zoom(a);
    Inverse1(z);
    assert Distance(a, x, j) == (j - k) as real;
    hide Distance;
    KernelsAtSamples(a.f, if z > 1.0 then 1.0 / z else z, j - k);
  }

  lemma WeightsAtSample(a: Axis, x: int, k: int)
    requires a.Valid() && Interpolating(a.f) && Zoom(a) >= 1.0
    requires 0 <= x < a.output && 0 <= k < a.input && Position(a, x) == k as real + 0.5
    ensures a.Weights()(x, k) == 1.0 && forall j :: j != k ==> a.Weights()(x, j) == 0.0
  {
    var total := WeightsInWords(a, x);
    hide Axis.Weights, Axis.Margin, KernelAt, Position, Zoom, Region;
    var w := a.Weights();
    forall j | j != k ensures w(x, j) == 0.0 {
      KernelAtSample(a, x, k, j);
      if w(x, j) != 0.0 { NonzeroProduct(w(x, j), total); }
    }
    OnlyWeight(a, x, k);
  }

  /** As they add up to 1, the only weight that is not 0 is 1. */
  lemma OnlyWeight(a: Axis, x: int, k: int)
    requires a.Valid() && 0 <= x < a.output && 0 <= k < a.input
    requires forall j :: j != k ==> a.Weights()(x, j) == 0.0
    ensures a.Weights()(x, k) == 1.0
  {
    SizesArePositive(a);
    AxisWeightsSumToOne(a, x);
    hide Axis.Weights, Axis.Margin;
    var w, m := a.Weights(), a.Margin();
    var terms := (j: int) => w(x, j) * 1.0;
    SumSupport(terms, -m, a.input + m, k, k + 1);
    SmallSums(terms, k);
    SumEqual(terms, j => a.Weights()(x, j) * ((i: int) => 1.0)(j), -m, a.input + m);
  }

  lemma Inverse1(z: real)
    requires z >= 1.0
    ensures 0.0 < 1.0 / z <= 1.0
  {
    if z > 1.0 { Inverse(z); }
  }

  /** With equal sizes and the whole source an interpolating filter leaves the image as it is. */
  lemma ImageIsKept(h: Axis, v: Axis, pixels: (int, int) -> real, y: int, x: int)
    requires h.Valid() && h.t0 == 0.0 && h.t1 == 1.0 && h.input == h.output && Interpolating(h.f)
    requires v.Valid() && v.t0 == 0.0 && v.t1 == 1.0 && v.input == v.output && Interpolating(v.f)
    requires 0 <= x < h.output && 0 <= y < v.output
    ensures Resized(h, v, pixels)(y, x) == pixels(y, x)
  {
    WholeIsMet(h, x);
    WholeIsMet(v, y);
    hide Axis.Resampled, Position, Zoom;
    forall k ensures h.Resampled(l => pixels(k, l), x) == pixels(k, x) {
      SamplesAreCopied(h, l => pixels(k, l), x, x);
    }
    SamplesAreCopied(v, k => h.Resampled(l => pixels(k, l), x), y, y);
  }

  lemma WholeIsMet(a: Axis, x: int)
    requires a.Valid() && a.t0 == 0.0 && a.t1 == 1.0 && a.input == a.output
    ensures Zoom(a) == 1.0 && Position(a, x) == x as real + 0.5
  {
    var n := a.input as real;
    assert (x as real + 0.5) / n * n == x as real + 0.5;
  }

  // ----- Rows and columns -----

  /** An image whose rows are all alike is resampled along its rows only, */
  lemma EqualRows(h: Axis, v: Axis, line: int -> real, pixels: (int, int) -> real, y: int, x: int)
    requires h.Valid() && v.Valid() && 0 <= y < v.output && forall j, k :: pixels(j, k) == line(k)
    ensures Resized(h, v, pixels)(y, x) == h.Resampled(line, x)
  {
    hide Axis.Resampled;
    var column := k => h.Resampled(l => pixels(k, l), x);
    forall k ensures column(k) == h.Resampled(line, x) {
      ResampledEqual(h, l => pixels(k, l), line, x);
    }
    ConstantLine(v, column, h.Resampled(line, x), y);
  }

  /** and one whose columns are all alike along its columns only. */
  lemma EqualColumns(h: Axis, v: Axis, line: int -> real, pixels: (int, int) -> real, y: int, x: int)
    requires h.Valid() && v.Valid() && 0 <= x < h.output && forall j, k :: pixels(j, k) == line(j)
    ensures Resized(h, v, pixels)(y, x) == v.Resampled(line, y)
  {
    hide Axis.Resampled;
    var column := k => h.Resampled(l => pixels(k, l), x);
    forall k ensures column(k) == line(k) {
      ConstantLine(h, l => pixels(k, l), line(k), x);
    }
    ResampledEqual(v, column, line, y);
  }

  // ----- Ramps -----

  /** An enlarged ramp is a ramp: each output sample has the value of its position. */
  lemma RampIsKept(a: Axis, x: int)
    requires a.Valid() && Zoom(a) > 1.0 && !a.f.Box? && 0 <= x < a.output
    ensures a.Resampled(k => k as real + 0.5, x) == Position(a, x)
  {
    hide Position, Zoom, Axis.Scale, Axis.Shift, Axis.Resampled, Center;
    SamplesArePlaced(a, x, 0);
    var ramp := (k: int) => k as real + 0.5;
    RampIsCentered(a, ramp, x);
    ResampledEqual(a, ramp, k => k as real + 0.5, x);
  }

  lemma RampIsCentered(a: Axis, ramp: int -> real, x: int)
    requires a.Valid() && Upsampling(a.Scale()) && !a.f.Box? && 0 <= x < a.output
    requires forall k :: ramp(k) == k as real + 0.5
    ensures a.Resampled(ramp, x) == Center(a.Scale(), a.Shift(), x)
  {
    hide Axis.Scale, Axis.Shift, Axis.Margin, Axis.Resampled, SampleRange, Kernel, Center, Support, Window, Weight;
    var c, s := Center(a.Scale(), a.Shift(), x), FilterScale(a.Scale());
    var r := SampleRange(a.f, a.Scale(), a.Shift(), x);
    UpsampleInMargin(a, x);
    SampleRangeIsWindow(a.f, a.Scale(), a.Shift(), x);
    GatheredIsResampled(a, ramp, x, r.first, r.last + 1);
    var moment := (k: int) => Weight(a.f, c, s)(k) * (k as real + 0.5);
    MomentIsCenter(a.f, c, s, moment);
    SumEqual(moment, k => a.Table()(x, k) * ramp(k), r.first, r.last + 1);
  }

  lemma MomentIsCenter(f: Filter, center: real, scale: real, moment: int -> real)
    requires 0.0 < scale <= 1.0 && !f.Box?
    requires forall k :: moment(k) == Weight(f, center, scale)(k) * (k as real + 0.5)
    ensures var r := Window(center, Support(f, scale)); Sum(moment, r.first, r.last + 1) == center
  {
    hide *;
    var lo := Window(center, Support(f, scale)).first;
    var x := lo as real + 0.5 - center;
    WindowIs(f, center, scale);
    SmallSums(moment, lo);
    if f.Triangle? {
      TwoMoments(center, scale, moment, lo, x);
    } else {
      FourMoments(f, center, scale, moment, lo, x);
    }
  }

  lemma TwoMoments(center: real, scale: real, moment: int -> real, lo: int, x: real)
    requires 0.0 < scale <= 1.0 && x == lo as real + 0.5 - center && -1.0 < x <= 0.0
    requires forall k :: moment(k) == Weight(Triangle, center, scale)(k) * (k as real + 0.5)
    ensures moment(lo) + moment(lo + 1) == center
  {
    hide *;
    var p, q, m, n := TriangleMoment(x, scale);
    var a := MomentTerm(Triangle, center, scale, moment, lo, x, p, m);
    var b := MomentTerm(Triangle, center, scale, moment, lo + 1, x + 1.0, q, n);
    SumOfParts(p, q, 0.0, 0.0, center, a, b, 0.0, 0.0);
  }

  lemma FourMoments(f: Filter, center: real, scale: real, moment: int -> real, lo: int, x: real)
    requires 0.0 < scale <= 1.0 && x == lo as real + 0.5 - center && -2.0 < x <= -1.0 && !f.Box? && !f.Triangle?
    requires forall k :: moment(k) == Weight(f, center, scale)(k) * (k as real + 0.5)
    ensures moment(lo) + moment(lo + 1) + moment(lo + 2) + moment(lo + 3) == center
  {
    hide *;
    var p, q, u, v, m, n, r, s := CubicMoment(f, x, scale);
    var a := MomentTerm(f, center, scale, moment, lo, x, p, m);
    var b := MomentTerm(f, center, scale, moment, lo + 1, x + 1.0, q, n);
    var c := MomentTerm(f, center, scale, moment, lo + 2, x + 2.0, u, r);
    var d := MomentTerm(f, center, scale, moment, lo + 3, x + 3.0, v, s);
    SumOfParts(p, q, u, v, center, a, b, c, d);
  }

  lemma SumOfParts(p: real, q: real, u: real, v: real, center: real, a: real, b: real, c: real, d: real)
    requires p + q + u + v == 1.0 && a == p * center && b == q * center && c == u * center && d == v * center
    ensures a + b + c + d == center
  {
    assert (p + q + u + v) * center == center;
  }

  lemma WindowIs(f: Filter, center: real, scale: real)
    requires 0.0 < scale <= 1.0 && !f.Box?
    ensures var r := Window(center, Support(f, scale)); var x := r.first as real + 0.5 - center;
      && r.last == (if f.Triangle? then r.first + 1 else r.first + 3)
      && if f.Triangle? then -1.0 < x <= 0.0 else -2.0 < x <= -1.0
  {}

  /** A moment is that around the center and its weight's part of the center. */
  lemma MomentTerm(f: Filter, center: real, scale: real, moment: int -> real, k: int, x: real, p: real, m: real)
    returns (part: real)
    requires 0.0 < scale <= 1.0 && x == k as real + 0.5 - center && p == Kernel(f, x, scale) && m == p * x
    requires moment(k) == Weight(f, center, scale)(k) * (k as real + 0.5)
    ensures part == p * center && moment(k) == m + part
  {
    hide Kernel;
    part := p * center;
    assert k as real + 0.5 == x + center;
  }

  lemma TriangleMoment(x: real, scale: real) returns (p: real, q: real, m: real, n: real)
    requires 0.0 < scale <= 1.0 && -1.0 < x <= 0.0
    ensures p == Kernel(Triangle, x, scale) && q == Kernel(Triangle, x + 1.0, scale)
    ensures p + q == 1.0 && m == p * x && n == q * (x + 1.0) && m + n == 0.0
  {
    p, q, m, n := 1.0 + x, -x, (1.0 + x) * x, (-x) * (x + 1.0);
  }

  lemma CubicMoment(f: Filter, x: real, scale: real)
    returns (p: real, q: real, u: real, v: real, m: real, n: real, r: real, s: real)
    requires 0.0 < scale <= 1.0 && -2.0 < x <= -1.0 && (f.CubicBSpline? || f.CatmullRom? || f.Mitchell?)
    ensures p == Kernel(f, x, scale) && q == Kernel(f, x + 1.0, scale)
    ensures u == Kernel(f, x + 2.0, scale) && v == Kernel(f, x + 3.0, scale)
    ensures p + q + u + v == 1.0
    ensures m == p * x && n == q * (x + 1.0) && r == u * (x + 2.0) && s == v * (x + 3.0) && m + n + r + s == 0.0
  {
    p, q, u, v := Kernel(f, x, scale), Kernel(f, x + 1.0, scale), Kernel(f, x + 2.0, scale), Kernel(f, x + 3.0, scale);
    m, n, r, s := p * x, q * (x + 1.0), u * (x + 2.0), v * (x + 3.0);
    CubicUnity(f, x, scale);
  }
}
