/** Filters and sample ranges of src/stb/stb_image_resize.h, in exact arithmetic. */
module SampleRanges {

  datatype Filter = Box | Triangle | CubicBSpline | CatmullRom | Mitchell

  function Abs(x: real): real { if x < 0.0 then -x else x }

  function Ceil(x: real): int { -((-x).Floor) }

  /** The weight of a sample at distance `x`; only the trapezoid of `Box` looks at the scale. */
  function Kernel(f: Filter, x: real, scale: real): real
    requires 0.0 < scale <= 1.0
  {
    var a := Abs(x);
    match f
    case Box =>
      var t, r := 0.5 + scale / 2.0, 0.5 - scale / 2.0;
      if a >= t then 0.0 else if a <= r then 1.0 else (t - a) / scale
    case Triangle => if a <= 1.0 then 1.0 - a else 0.0
    case CubicBSpline =>
      if a < 1.0 then (4.0 + a * a * (3.0 * a - 6.0)) / 6.0
      else if a < 2.0 then (8.0 + a * (-12.0 + a * (6.0 - a))) / 6.0
      else 0.0
    case CatmullRom =>
      if a < 1.0 then 1.0 - a * a * (2.5 - 1.5 * a)
      else if a < 2.0 then 2.0 - a * (4.0 + a * (0.5 * a - 2.5))
      else 0.0
    case Mitchell =>
      if a < 1.0 then (16.0 + a * a * (21.0 * a - 36.0)) / 18.0
      else if a < 2.0 then (32.0 + a * (-60.0 + a * (36.0 - 7.0 * a))) / 18.0
      else 0.0
  }

  function Support(f: Filter, scale: real): real
    requires 0.0 < scale <= 1.0
  {
    match f
    case Box => 0.5 + scale / 2.0
    case Triangle => 1.0
    case _ => 2.0
  }

  predicate Upsampling(scale: real) { scale > 1.0 }

  /** The scale handed to the filter: at most 1 either way. */
  function FilterScale(scale: real): (s: real)
    requires scale > 0.0
    ensures 0.0 < s <= 1.0
  {
    if Upsampling(scale) then
      assert scale * (1.0 / scale) == 1.0;
      1.0 / scale
    else scale
  }

  function Radius(f: Filter, scale: real): real
    requires scale > 0.0
  {
    var support := Support(f, FilterScale(scale));
    if Upsampling(scale) then support * scale else support / scale
  }

  /** The pixels a sample reaches, and the sample's own place among them. */
  datatype Range = Range(first: int, last: int, center: real)

  /** Which input pixels contribute to output pixel `n`. */
  function UpsampleRange(n: int, outFilterRadius: real, scaleRatio: real, outShift: real): Range
    requires scaleRatio > 0.0
  {
    var outPixelCenter := n as real + 0.5;
    var lower := (outPixelCenter - outFilterRadius + outShift) / scaleRatio;
    var upper := (outPixelCenter + outFilterRadius + outShift) / scaleRatio;
    Range((lower + 0.5).Floor, (upper - 0.5).Floor, (outPixelCenter + outShift) / scaleRatio)
  }

  /** Which output pixels input pixel `n` contributes to. */
  function DownsampleRange(n: int, inPixelsRadius: real, scaleRatio: real, outShift: real): Range {
    var inPixelCenter := n as real + 0.5;
    var lower := (inPixelCenter - inPixelsRadius) * scaleRatio - outShift;
    var upper := (inPixelCenter + inPixelsRadius) * scaleRatio - outShift;
    Range((lower + 0.5).Floor, (upper - 0.5).Floor, inPixelCenter * scaleRatio - outShift)
  }

  function SampleRange(f: Filter, scale: real, shift: real, n: int): Range
    requires scale > 0.0
  {
    if Upsampling(scale) then UpsampleRange(n, Radius(f, scale), scale, shift)
    else DownsampleRange(n, Radius(f, scale), scale, shift)
  }

  // ----- Buffer sizes -----

  function FilterPixelWidth(f: Filter, scale: real): int
    requires scale > 0.0
  {
    var support := Support(f, FilterScale(scale));
    if Upsampling(scale) then Ceil(support * 2.0) else Ceil(support * 2.0 / scale)
  }

  function FilterPixelMargin(f: Filter, scale: real): int
    requires scale > 0.0
  {
    FilterPixelWidth(f, scale) / 2
  }

  function CoefficientWidth(f: Filter, scale: real): int
    requires scale > 0.0
  {
    Ceil(Support(f, FilterScale(scale)) * 2.0)
  }

  function RingBufferEntries(f: Filter, scale: real): int
    requires scale > 0.0
  {
    FilterPixelWidth(f, scale) + 1
  }

  // ----- Ranges are windows around a center -----

  /** The window of the given half width around a center. */
  function Window(center: real, support: real): Range {
    Range((center - support + 0.5).Floor, (center + support - 0.5).Floor, center)
  }

  function Center(scale: real, shift: real, n: int): real
    requires scale > 0.0
  {
    if Upsampling(scale) then (n as real + 0.5 + shift) / scale else (n as real + 0.5) * scale - shift
  }

  lemma Divide(a: real, b: real, c: real)
    requires c > 0.0
    ensures (a + b * c) / c == a / c + b && (a - b * c) / c == a / c - b
  {
    assert (a / c + b) * c == a + b * c;
    assert (a / c - b) * c == a - b * c;
  }

  lemma UpsampleIsWindow(n: int, support: real, scale: real, shift: real)
    requires scale > 0.0
    ensures UpsampleRange(n, support * scale, scale, shift) == Window((n as real + 0.5 + shift) / scale, support)
  {
    var x, r := n as real + 0.5, support * scale;
    Divide(x + shift, support, scale);
    hide *;
    assert x - r + shift == x + shift - r && x + r + shift == x + shift + r;
  }

  lemma DownsampleIsWindow(n: int, support: real, scale: real, shift: real)
    requires scale > 0.0
    ensures DownsampleRange(n, support / scale, scale, shift) == Window((n as real + 0.5) * scale - shift, support)
  {
    var x, r := n as real + 0.5, support / scale;
    assert r * scale == support;
    assert (x - r) * scale == x * scale - r * scale && (x + r) * scale == x * scale + r * scale;
  }

  lemma SampleRangeIsWindow(f: Filter, scale: real, shift: real, n: int)
    requires scale > 0.0
    ensures SampleRange(f, scale, shift, n) == Window(Center(scale, shift, n), Support(f, FilterScale(scale)))
  {
    var support := Support(f, FilterScale(scale));
    hide Support, FilterScale, Window, UpsampleRange, DownsampleRange;
    if Upsampling(scale) {
      assert Radius(f, scale) == support * scale;
      UpsampleIsWindow(n, support, scale, shift);
    } else {
      assert Radius(f, scale) == support / scale;
      DownsampleIsWindow(n, support, scale, shift);
    }
  }

  lemma SupportBounds(f: Filter, scale: real)
    requires 0.0 < scale <= 1.0
    ensures 0.5 < Support(f, scale) <= 2.0
  {}

  /** A step of one sample moves the center forward, by at most one pixel. */
  lemma CenterStep(scale: real, shift: real, n: int)
    requires scale > 0.0
    ensures Center(scale, shift, n) < Center(scale, shift, n + 1) <= Center(scale, shift, n) + 1.0
  {
    var x := n as real + 0.5;
    if Upsampling(scale) {
      var inv := 1.0 / scale;
      assert inv * scale == 1.0;
      assert 0.0 < inv < 1.0;
      Divide(x + shift, inv, scale);
      assert x + shift + inv * scale == x + 1.0 + shift;
    } else {
      assert (x + 1.0) * scale == x * scale + scale;
    }
  }

  lemma {:induction false} CentersIncrease(scale: real, shift: real, m: int, n: int)
    requires scale > 0.0 && m <= n
    ensures Center(scale, shift, m) <= Center(scale, shift, n)
    decreases n - m
  {
    if m < n {
      CentersIncrease(scale, shift, m, n - 1);
      CenterStep(scale, shift, n - 1);
    }
  }

  /** Ranges are nonempty, their ends never move back, and they move on by at most one. */
  lemma RangesAdvance(f: Filter, scale: real, shift: real, n: int)
    requires scale > 0.0
    ensures var a, b := SampleRange(f, scale, shift, n), SampleRange(f, scale, shift, n + 1);
      && a.first <= a.last
      && a.first <= b.first <= a.first + 1
      && a.last <= b.last <= a.last + 1
  {
    SampleRangeIsWindow(f, scale, shift, n);
    SampleRangeIsWindow(f, scale, shift, n + 1);
    SupportBounds(f, FilterScale(scale));
    CenterStep(scale, shift, n);
    hide Center, Support, SampleRange;
  }

  /** A range is not empty; it fits the coefficient group of a sample, and, with one to spare, the ring buffer. */
  lemma RangeFits(f: Filter, scale: real, shift: real, n: int)
    requires scale > 0.0
    ensures var r := SampleRange(f, scale, shift, n);
      && r.first <= r.last
      && r.last - r.first + 1 <= CoefficientWidth(f, scale) <= FilterPixelWidth(f, scale) < RingBufferEntries(f, scale)
  {
    hide Center, Support, FilterScale, SampleRange;
    RangesAdvance(f, scale, shift, n);
    SampleRangeIsWindow(f, scale, shift, n);
    var support := Support(f, FilterScale(scale));
    SupportBounds(f, FilterScale(scale));
    WindowWidth(Center(scale, shift, n), support);
    if !Upsampling(scale) { CeilGrows(support * 2.0, scale); }
    hide Window;
  }

  lemma WindowWidth(center: real, support: real)
    ensures Window(center, support).last - Window(center, support).first + 1 <= Ceil(support * 2.0)
  {}

  lemma CeilGrows(w: real, scale: real)
    requires w >= 0.0 && 0.0 < scale <= 1.0
    ensures Ceil(w) <= Ceil(w / scale)
  {
    var q := w / scale;
    assert q * scale == w && q - w == q * (1.0 - scale);
  }

  /** Every pixel with weight is in range. */
  lemma RangeCoversKernel(f: Filter, scale: real, shift: real, n: int, k: int)
    requires scale > 0.0
    requires Kernel(f, k as real + 0.5 - Center(scale, shift, n), FilterScale(scale)) != 0.0
    ensures var r := SampleRange(f, scale, shift, n); r.first <= k <= r.last
  {
    SampleRangeIsWindow(f, scale, shift, n);
    var s := FilterScale(scale);
    assert Abs(k as real + 0.5 - Center(scale, shift, n)) < Support(f, s);
    hide Center, Support, SampleRange, Kernel;
  }
}
