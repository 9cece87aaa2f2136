/** A whole resize (stbir__resize_allocated): tables, buffers and loops together compute one separable
    weighted sum for every output pixel. */
module Resize {
  import opened SampleRanges
  import opened FilterProperties
  import opened Sums
  import opened Coefficients
  import opened CalculateFilters
  import opened Totals
  import opened LineResampler
  import opened RingBuffer
  import opened Resampler

  // ----- One axis -----

  /** The part [t0, t1] of `input` samples, resampled to `output` samples. */
  datatype Axis = Axis(f: Filter, input: nat, output: nat, t0: real, t1: real) {

    ghost predicate Valid() { Region(input, output, t0, t1) }

    function Scale(): (s: real)
      requires input > 0 && output > 0 && t0 < t1
      ensures s > 0.0
    {
      FilterProperties.Scale(input, output, t0, t1)
    }

    function Shift(): real
      requires t0 < t1
    {
      FilterProperties.Shift(output, t0, t1)
    }

    function Margin(): int
      requires input > 0 && output > 0 && t0 < t1
    {
      FilterPixelMargin(f, Scale())
    }

    /** How many coefficient groups there are. */
    function Groups(): int
      requires input > 0 && output > 0 && t0 < t1
    {
      if Upsampling(Scale()) then output else input + 2 * Margin()
    }

    /** No output sample loses its weight when shrinking. */
    lemma TotalsAreKept()
      requires Valid()
      ensures !Upsampling(Scale()) ==>
        forall i :: 0 <= i < output ==> ColumnSum(DownsampleWeights(f, Scale(), Shift()), Groups(), i) != 0.0
    {
      hide ColumnSum, DownsampleWeights;
      if !Upsampling(Scale()) {
        forall i | 0 <= i < output
          ensures ColumnSum(DownsampleWeights(f, Scale(), Shift()), Groups(), i) != 0.0
        {
          TotalIsPositive(f, input, output, t0, t1, i);
        }
      }
    }

    /** What the coefficient tables hold. */
    ghost function Table(): (int, int) -> real
      requires Valid()
    {
      TotalsAreKept();
      if Upsampling(Scale()) then UpsampleWeights(f, Scale(), Shift())
      else Clipped(Normalized(DownsampleWeights(f, Scale(), Shift()), Groups(), output), output)
    }

    /** The weight of input sample `k` in output sample `x`. */
    ghost function Weights(): (int, int) -> real
      requires Valid()
    {
      if Upsampling(Scale()) then Table() else (x, k) => Table()(k + Margin(), x)
    }

    /** Output sample `x` of a line. */
    ghost function Resampled(line: int -> real, x: int): real
      requires Valid()
    {
      Sum(k => Weights()(x, k) * line(k), -Margin(), input + Margin())
    }
  }

  /** When enlarging, no sample range leaves the margin. */
  lemma UpsampleInMargin(a: Axis, n: int)
    requires a.Valid() && Upsampling(a.Scale()) && 0 <= n < a.output
    ensures var r := SampleRange(a.f, a.Scale(), a.Shift(), n);
      -a.Margin() <= r.first <= r.last < a.input + a.Margin()
  {
    hide Axis.Scale, Axis.Shift, Axis.Margin, Support, SampleRange, Window, FilterScale, Center;
    var scale, shift := a.Scale(), a.Shift();
    RangesAdvance(a.f, scale, shift, n);
    SampleRangeIsWindow(a.f, scale, shift, n);
    SupportBounds(a.f, FilterScale(scale));
    AxisRegion(a);
    CenterInside(scale, shift, n, a.input, a.output);
    MarginOfAxis(a);
    WindowInside(Center(scale, shift, n), Support(a.f, FilterScale(scale)), a.input, a.Margin());
  }

  lemma AxisRegion(a: Axis)
    requires a.Valid()
    ensures 0.0 <= a.Shift() && a.output as real + a.Shift() <= a.input as real * a.Scale()
  {
    RegionBounds(a.input, a.output, a.t0, a.t1);
  }

  lemma MarginOfAxis(a: Axis)
    requires a.Valid() && Upsampling(a.Scale())
    ensures Support(a.f, FilterScale(a.Scale())) <= a.Margin() as real + 0.5
  {
    hide Axis.Scale, Support, FilterScale;
    SupportBounds(a.f, FilterScale(a.Scale()));
    HalfCeil(Support(a.f, FilterScale(a.Scale())) * 2.0);
  }

  lemma CenterInside(scale: real, shift: real, n: int, input: nat, output: nat)
    requires Upsampling(scale) && 0 <= n < output && 0.0 <= shift && output as real + shift <= input as real * scale
    ensures 0.0 <= Center(scale, shift, n) < input as real
  {
    var x := n as real + 0.5 + shift;
    var c := x / scale;
    assert c * scale == x;
    LessByFactor(0.0, c, scale);
    LessByFactor(c, input as real, scale);
  }

  lemma WindowInside(c: real, support: real, input: nat, margin: int)
    requires 0.0 <= c <= input as real && support <= margin as real + 0.5
    ensures -margin <= Window(c, support).first && (c < input as real ==> Window(c, support).last < input + margin)
  {}

  /** An enlarged sample, gathered over any range that covers its window. */
  lemma GatheredIsResampled(a: Axis, line: int -> real, x: int, lo: int, hi: int)
    requires a.Valid() && Upsampling(a.Scale()) && 0 <= x < a.output
    requires var r := SampleRange(a.f, a.Scale(), a.Shift(), x); lo <= r.first && r.last < hi
    requires -a.Margin() <= lo && hi <= a.input + a.Margin()
    ensures Gathered(a.Table(), line, x, lo, hi) == a.Resampled(line, x)
  {
    hide Scale, Shift, SampleRange, FilterPixelMargin, Kernel, Center;
    var terms := k => a.Weights()(x, k) * line(k);
    var r := SampleRange(a.f, a.Scale(), a.Shift(), x);
    RangesAdvance(a.f, a.Scale(), a.Shift(), x);
    forall k | !(r.first <= k <= r.last)
      ensures terms(k) == 0.0
    {
      UpsampleWeightInRange(a, x, k);
    }
    SumSupport(terms, -a.Margin(), a.input + a.Margin(), r.first, r.last + 1);
    SumSupport(terms, lo, hi, r.first, r.last + 1);
    SumEqual(terms, k => a.Table()(x, k) * line(k), lo, hi);
  }

  lemma UpsampleWeightInRange(a: Axis, x: int, k: int)
    requires a.Valid() && Upsampling(a.Scale())
    requires var r := SampleRange(a.f, a.Scale(), a.Shift(), x); !(r.first <= k <= r.last)
    ensures a.Weights()(x, k) == 0.0
  {
    hide Axis.Scale, Axis.Shift, Axis.Margin, Axis.Groups, SampleRange, Kernel, Center, FilterScale;
    var c, s := Center(a.Scale(), a.Shift(), x), FilterScale(a.Scale());
    assert a.Weights()(x, k) == Weight(a.f, c, s)(k) == Kernel(a.f, k as real + 0.5 - c, s);
    if Kernel(a.f, k as real + 0.5 - c, s) != 0.0 {
      RangeCoversKernel(a.f, a.Scale(), a.Shift(), x, k);
    }
  }

  lemma ScatteredIsResampled(a: Axis, line: int -> real, x: int)
    requires a.Valid() && !Upsampling(a.Scale())
    ensures Scattered(a.Table(), line, a.Margin(), x, a.Groups()) == a.Resampled(line, x)
  {
    hide Axis.Scale, Axis.Shift, Axis.Margin, Axis.Table;
    var m := a.Margin();
    var w := (x, k) => a.Table()(k + m, x);
    SizesArePositive(a);
    var terms := k => w(x, k) * line(k);
    ScatteredShift(a.Table(), line, terms, m, x, a.input + 2 * m);
    SumEqual(terms, k => a.Weights()(x, k) * line(k), -m, a.input + m);
  }

  /** Scattering by source sample and gathering by output sample add the same terms. */
  lemma {:induction false} ScatteredShift(table: (int, int) -> real, line: int -> real, terms: int -> real, m: int,
                                          x: int, n: int)
    requires n >= 0 && forall k :: terms(k) == table(k + m, x) * line(k)
    ensures Scattered(table, line, m, x, n) == Sum(terms, -m, n - m)
    decreases n
  {
    if n > 0 {
      ScatteredShift(table, line, terms, m, x, n - 1);
      ScatteredStep(table, line, m, x, n);
      SumStep(terms, -m, n - m);
      assert terms(n - 1 - m) == table(n - 1 - m + m, x) * line(n - 1 - m);
    }
  }

  lemma ScatteredStep(table: (int, int) -> real, line: int -> real, m: int, x: int, n: int)
    requires n > 0
    ensures Scattered(table, line, m, x, n) == Scattered(table, line, m, x, n - 1) + table(n - 1, x) * line(n - 1 - m)
  {}

  /** Every output sample is an average: its weights sum to one. */
  lemma AxisWeightsSumToOne(a: Axis, x: int)
    requires a.Valid() && 0 <= x < a.output
    ensures a.Resampled(k => 1.0, x) == 1.0
  {
    if Upsampling(a.Scale()) { EnlargedSum(a, x); } else { ReducedSum(a, x); }
  }

  lemma EnlargedSum(a: Axis, x: int)
    requires a.Valid() && Upsampling(a.Scale()) && 0 <= x < a.output
    ensures a.Resampled(k => 1.0, x) == 1.0
  {
    hide Axis.Scale, Axis.Shift, Axis.Margin, Axis.Resampled, SampleRange, Kernel, Center, Support, Window, Weight;
    var r := SampleRange(a.f, a.Scale(), a.Shift(), x);
    var s, c := FilterScale(a.Scale()), Center(a.Scale(), a.Shift(), x);
    UpsampleInMargin(a, x);
    SampleRangeIsWindow(a.f, a.Scale(), a.Shift(), x);
    WeightsSumToOne(a.f, c, s);
    GatheredIsResampled(a, k => 1.0, x, r.first, r.last + 1);
    SumEqual(Weight(a.f, c, s), k => a.Table()(x, k) * ((k: int) => 1.0)(k), r.first, r.last + 1);
  }

  lemma ReducedSum(a: Axis, x: int)
    requires a.Valid() && !Upsampling(a.Scale()) && 0 <= x < a.output
    ensures a.Resampled(k => 1.0, x) == 1.0
  {
    hide Axis.Scale, Axis.Shift, Axis.Margin, Axis.Groups, Axis.Resampled, DownsampleWeights, Normalized, Clipped;
    var w, m := DownsampleWeights(a.f, a.Scale(), a.Shift()), a.Margin();
    a.TotalsAreKept();
    NormalizedSum(w, a.Groups(), a.output, x);
    ScatteredIsResampled(a, k => 1.0, x);
    SumEqual(j => a.Table()(j, x), j => a.Table()(j, x) * ((k: int) => 1.0)(j - m), 0, a.Groups());
  }

  /** A constant line stays constant. */
  lemma ConstantLine(a: Axis, line: int -> real, v: real, x: int)
    requires a.Valid() && 0 <= x < a.output && forall k :: line(k) == v
    ensures a.Resampled(line, x) == v
  {
    hide Axis.Weights, Axis.Margin;
    AxisWeightsSumToOne(a, x);
    ScaledLine(a.Weights(), line, v, x, -a.Margin(), a.input + a.Margin());
  }

  lemma {:induction false} ScaledLine(w: (int, int) -> real, line: int -> real, v: real, x: int, lo: int, hi: int)
    requires forall k :: line(k) == v
    ensures Sum(k => w(x, k) * line(k), lo, hi) == Sum(k => w(x, k) * ((k: int) => 1.0)(k), lo, hi) * v
    decreases hi - lo
  {
    if lo < hi { ScaledLine(w, line, v, x, lo, hi - 1); }
  }

  // ----- Both axes -----

  lemma ResampledEqual(a: Axis, g: int -> real, h: int -> real, x: int)
    requires a.Valid() && forall k :: g(k) == h(k)
    ensures a.Resampled(g, x) == a.Resampled(h, x)
  {
    hide Axis.Weights, Axis.Margin;
    SumEqual(k => a.Weights()(x, k) * g(k), k => a.Weights()(x, k) * h(k), -a.Margin(), a.input + a.Margin());
  }

  /** Output pixel (y, x): the columns of the horizontally resampled image, resampled vertically. */
  ghost function Resized(h: Axis, v: Axis, pixels: (int, int) -> real): (int, int) -> real
    requires h.Valid() && v.Valid()
  {
    (y, x) => v.Resampled(k => h.Resampled(l => pixels(k, l), x), y)
  }

  /** A constant image stays constant. */
  lemma ConstantImage(h: Axis, v: Axis, pixels: (int, int) -> real, c: real, y: int, x: int)
    requires h.Valid() && v.Valid()
    requires 0 <= x < h.output && 0 <= y < v.output && forall k, l :: pixels(k, l) == c
    ensures Resized(h, v, pixels)(y, x) == c
  {
    hide Axis.Resampled;
    var column := k => h.Resampled(l => pixels(k, l), x);
    forall k
      ensures column(k) == c
    {
      ConstantLine(h, l => pixels(k, l), c, x);
    }
    ConstantLine(v, column, c, y);
  }

  /** The tables of one axis, computed. */
  method FillAxis(a: Axis) returns (contributors: array<Contributors>, coefficients: array2<real>)
    requires a.Valid()
    ensures Holds(contributors, coefficients, a.Table()) && contributors.Length == a.Groups()
    ensures Upsampling(a.Scale()) ==> forall n :: 0 <= n < contributors.Length ==>
      var r := SampleRange(a.f, a.Scale(), a.Shift(), n);
      r.first <= contributors[n].n0 <= contributors[n].n1 <= r.last
    ensures !Upsampling(a.Scale()) ==> forall n :: 0 <= n < contributors.Length ==>
      var r := SampleRange(a.f, a.Scale(), a.Shift(), n - a.Margin());
      var c := contributors[n]; 0 <= c.n0 && r.first <= c.n0 && c.n1 < a.output && c.n1 <= r.last
    ensures fresh(contributors) && fresh(coefficients)
  {
    hide Axis.Scale, Axis.Shift, SampleRange, FilterPixelMargin, FilterPixelWidth, CoefficientWidth, ColumnSum,
         Normalized, Clipped,
         EffectiveWeight, UpsampleWeights, DownsampleWeights;
    SizesArePositive(a);
    a.TotalsAreKept();
    contributors := new Contributors[a.Groups()](_ => Contributors(0, -1));
    coefficients := new real[a.Groups(), CoefficientWidth(a.f, a.Scale())]((_, _) => 0.0);
    if Upsampling(a.Scale()) {
      CalculateFiltersUpsample(a.f, a.Scale(), a.Shift(), contributors, coefficients);
    } else {
      CalculateFiltersDownsample(a.f, a.Scale(), a.Shift(), a.output, contributors, coefficients);
    }
  }

  lemma SizesArePositive(a: Axis)
    requires a.Valid()
    ensures 1 <= CoefficientWidth(a.f, a.Scale()) && 1 <= a.Margin() && a.Groups() >= 1
    ensures 1 < RingBufferEntries(a.f, a.Scale())
  {
    hide Axis.Scale, SampleRange, FilterPixelWidth, CoefficientWidth, Support, FilterScale, FilterPixelMargin;
    RangesAdvance(a.f, a.Scale(), 0.0, 0);
    RangeFits(a.f, a.Scale(), 0.0, 0);
    if Upsampling(a.Scale()) { EnlargedMargin(a); } else { MarginBounds(a.f, a.Scale()); }
  }

  lemma EnlargedMargin(a: Axis)
    requires a.Valid() && Upsampling(a.Scale())
    ensures 1 <= a.Margin()
  {
    hide Axis.Scale, Support, FilterScale;
    SupportBounds(a.f, FilterScale(a.Scale()));
    HalfCeil(Support(a.f, FilterScale(a.Scale())) * 2.0);
  }

  /** The line half: every scanline is the horizontally resampled source line. */
  method MakeLine(h: Axis, pixels: (int, int) -> real) returns (line: Line)
    requires h.Valid()
    ensures line.Valid() && line.width == h.output && line.pixels == pixels
    ensures forall n, x :: 0 <= x < h.output ==> line.Scanline(n, x) == h.Resampled(k => pixels(n, k), x)
    ensures fresh(line) && fresh(line.decode) && fresh(line.contributors) && fresh(line.coefficients)
  {
    hide Axis.Scale, Axis.Shift, Axis.Resampled, Axis.Table, SampleRange, FilterPixelMargin, EffectiveWeight;
    var contributors, coefficients := FillAxis(h);
    SizesArePositive(h);
    var m := h.Margin();
    var decode := new real[h.input + 2 * m](_ => 0.0);
    line := new Line(Upsampling(h.Scale()), m, h.output, contributors, coefficients, decode, pixels, h.Table());
    forall x | 0 <= x < h.output && Upsampling(h.Scale())
      ensures InBuffer(contributors[x], m, decode.Length)
    {
      UpsampleInMargin(h, x);
    }
    forall n, x | 0 <= x < h.output
      ensures line.Scanline(n, x) == h.Resampled(k => pixels(n, k), x)
    {
      if Upsampling(h.Scale()) {
        UpsampleInMargin(h, x);
        GatheredIsResampled(h, k => pixels(n, k), x, -m, h.input + m);
      } else {
        ScatteredIsResampled(h, k => pixels(n, k), x);
      }
    }
  }

  /** As many scanline buffers as the ring needs, all different. */
  method MakeEntries(n: nat, length: nat) returns (entries: seq<array<real>>)
    ensures |entries| == n
    ensures forall i :: 0 <= i < n ==> entries[i].Length == length && fresh(entries[i])
    ensures forall i, j :: 0 <= i < j < n ==> entries[i] != entries[j]
  {
    entries := [];
    while |entries| < n
      invariant |entries| <= n
      invariant forall i :: 0 <= i < |entries| ==> entries[i].Length == length && fresh(entries[i])
      invariant forall i, j :: 0 <= i < j < |entries| ==> entries[i] != entries[j]
    {
      var entry := new real[length](_ => 0.0);
      entries := entries + [entry];
    }
  }

  /** Everything the buffer loops need. */
  method MakeInfo(h: Axis, v: Axis, pixels: (int, int) -> real) returns (info: Info)
    requires h.Valid() && v.Valid()
    ensures info.Valid() && info.ring.Empty() && info.output == []
    ensures info.f == v.f && info.scale == v.Scale() && info.shift == v.Shift() && info.weights == v.Table()
    ensures info.inputH == v.input && info.outputH == v.output && info.buffer.Length == h.output
    ensures forall n, x :: 0 <= x < h.output ==> info.line.Scanline(n, x) == h.Resampled(k => pixels(n, k), x)
    ensures if Upsampling(info.scale) then info.ForUpsampling() else info.ForDownsampling()
    ensures fresh(info) && fresh(info.ring) && fresh(info.line) && fresh(info.line.decode) && fresh(info.buffer)
    ensures forall i :: 0 <= i < |info.ring.entries| ==> fresh(info.ring.entries[i])
  {
    hide Axis.Scale, Axis.Shift, Axis.Margin, Axis.Table, Axis.Resampled, SampleRange, RingBufferEntries,
         EffectiveWeight, Ring.Slot,
         Holds, FilterPixelMargin;
    var line := MakeLine(h, pixels);
    var contributors, coefficients := FillAxis(v);
    SizesArePositive(v);
    var entries := MakeEntries(RingBufferEntries(v.f, v.Scale()), h.output);
    var ring := new Ring(entries, h.output);
    var buffer := new real[h.output](_ => 0.0);
    info := new Info(v.f, v.Scale(), v.Shift(), v.input, v.output, line, ring, buffer, contributors, coefficients,
                     v.Table());
    if !Upsampling(v.Scale()) { EdgesOfAxis(v); }
    TablesFit(v, info);
  }

  lemma TablesFit(v: Axis, info: Info)
    requires v.Valid() && info.f == v.f && info.scale == v.Scale() && info.shift == v.Shift()
    requires info.inputH == v.input && info.outputH == v.output && info.contributors.Length == v.Groups()
    requires Upsampling(v.Scale()) ==> forall n :: 0 <= n < info.contributors.Length ==>
      var r := SampleRange(v.f, v.Scale(), v.Shift(), n);
      r.first <= info.contributors[n].n0 <= info.contributors[n].n1 <= r.last
    requires !Upsampling(v.Scale()) ==> forall n :: 0 <= n < info.contributors.Length ==>
      var r := SampleRange(v.f, v.Scale(), v.Shift(), n - v.Margin()); var c := info.contributors[n];
      0 <= c.n0 && r.first <= c.n0 && c.n1 < v.output && c.n1 <= r.last
    ensures if Upsampling(v.Scale()) then info.ForUpsampling() else info.ForDownsampling()
  {
    hide Axis.Scale, Axis.Shift, SampleRange, FilterPixelMargin;
    SizesArePositive(v);
    if !Upsampling(v.Scale()) { EdgesOfAxis(v); }
  }

  /** stbir_resize in exact arithmetic: every row of the output, once and in order, every pixel of it
      the separable weighted sum over the whole image. */
  method Resize(h: Axis, v: Axis, pixels: (int, int) -> real) returns (rows: seq<Row>)
    requires h.Valid() && v.Valid()
    ensures |rows| == v.output
    ensures forall y :: 0 <= y < v.output ==> rows[y] == RowOf(Resized(h, v, pixels), h.output, y)
  {
    hide *;
    var info := MakeInfo(h, v, pixels);
    info.BufferLoop();
    rows := info.output;
    AllRows(h, v, pixels, info, rows);
  }

  lemma AllRows(h: Axis, v: Axis, pixels: (int, int) -> real, info: Info, rows: seq<Row>)
    requires h.Valid() && v.Valid()
    requires info.f == v.f && info.scale == v.Scale() && info.shift == v.Shift() && info.inputH == v.input
    requires info.weights == v.Table()
    requires forall n, x :: 0 <= x < h.output ==> info.line.Scanline(n, x) == h.Resampled(k => pixels(n, k), x)
    requires info.buffer.Length == h.output && info.outputH == v.output && rows == info.Rows()
    ensures |rows| == v.output
    ensures forall y :: 0 <= y < v.output ==> rows[y] == RowOf(Resized(h, v, pixels), h.output, y)
  {
    hide Axis.Scale, Axis.Shift, Axis.Table, Axis.Resampled, RowsBelow, RowOf;
    RowsInOrder(if Upsampling(v.Scale()) then info.Upsampled() else info.Downsampled(), h.output, v.output, v.output);
    forall y | 0 <= y < v.output
      ensures rows[y] == RowOf(Resized(h, v, pixels), h.output, y)
    {
      RowIsResized(h, v, pixels, info, y);
    }
  }

  lemma EdgesOfAxis(a: Axis)
    requires a.Valid() && !Upsampling(a.Scale())
    ensures SampleRange(a.f, a.Scale(), a.Shift(), -a.Margin()).first <= 0
    ensures SampleRange(a.f, a.Scale(), a.Shift(), a.input + a.Margin() - 1).last >= a.output - 1
  {
    EdgesAreReached(a.f, a.input, a.output, a.t0, a.t1);
  }

  lemma RowIsResized(h: Axis, v: Axis, pixels: (int, int) -> real, info: Info, y: nat)
    requires h.Valid() && v.Valid() && y < v.output
    requires info.f == v.f && info.scale == v.Scale() && info.shift == v.Shift() && info.inputH == v.input
    requires info.weights == v.Table()
    requires forall n, x :: 0 <= x < h.output ==> info.line.Scanline(n, x) == h.Resampled(k => pixels(n, k), x)
    ensures Upsampling(v.Scale()) ==> RowOf(info.Upsampled(), h.output, y) == RowOf(Resized(h, v, pixels), h.output, y)
    ensures !Upsampling(v.Scale()) ==>
      RowOf(info.Downsampled(), h.output, y) == RowOf(Resized(h, v, pixels), h.output, y)
  {
    hide Axis.Scale, Axis.Shift, Axis.Table, Axis.Resampled, SampleRange, FilterPixelMargin;
    forall x | 0 <= x < h.output
      ensures Upsampling(v.Scale()) ==> info.Upsampled()(y, x) == Resized(h, v, pixels)(y, x)
      ensures !Upsampling(v.Scale()) ==> info.Downsampled()(y, x) == Resized(h, v, pixels)(y, x)
    {
      ResampledEqual(v, info.Column(x), k => h.Resampled(l => pixels(k, l), x), y);
      if Upsampling(v.Scale()) {
        UpsampleInMargin(v, y);
        var r := info.RangeOf(y);
        GatheredIsResampled(v, info.Column(x), y, r.first, r.last + 1);
      } else {
        ScatteredIsResampled(v, info.Column(x), y);
      }
    }
  }
}
