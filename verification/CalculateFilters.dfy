/** Filling the coefficient tables for a whole line (stbir__calculate_filters). */
module CalculateFilters {
  import opened SampleRanges
  import opened FilterProperties
  import opened Coefficients

  /** The last step: groups lose their leading zeros and the pixels outside the output. The weights
      on output pixels are the normalised ones, and nothing else is left. */
  method NormalizeDownsampleCoefficients(contributors: array<Contributors>, coefficients: array2<real>, outputSize: nat,
                                         ghost w: (int, int) -> real)
    requires Holds(contributors, coefficients, w) && Monotone(contributors[..]) && EndsNonzero(contributors, w)
    requires forall i :: 0 <= i < outputSize ==> ColumnSum(w, contributors.Length, i) != 0.0
    modifies contributors, coefficients
    ensures Holds(contributors, coefficients, Clipped(Normalized(w, contributors.Length, outputSize), outputSize))
    ensures forall j :: 0 <= j < contributors.Length ==>
      && 0 <= contributors[j].n0 && old(contributors[j].n0) <= contributors[j].n0
      && contributors[j].n1 < outputSize && contributors[j].n1 <= old(contributors[j].n1)
  {
    hide ColumnSum, EffectiveWeight;
    ghost var v := Normalized(w, contributors.Length, outputSize);
    NormalizeColumns(contributors, coefficients, outputSize, w);
    NormalizedEnds(contributors, w, outputSize);
    SkipZeros(contributors, coefficients, v);
    ClampToOutput(contributors, coefficients, outputSize, (j, i) => if i >= 0 then v(j, i) else 0.0);
    HoldsEqual(contributors, coefficients, (j, i) => if i < outputSize then (if i >= 0 then v(j, i) else 0.0) else 0.0,
               Clipped(v, outputSize));
  }

  lemma HoldsEqual(contributors: array<Contributors>, coefficients: array2<real>, v: (int, int) -> real,
                   w: (int, int) -> real)
    requires Holds(contributors, coefficients, v) && forall j, i :: v(j, i) == w(j, i)
    ensures Holds(contributors, coefficients, w)
  {
    hide EffectiveWeight;
  }

  lemma NormalizedEnds(contributors: array<Contributors>, w: (int, int) -> real, n: nat)
    requires EndsNonzero(contributors, w)
    requires forall i :: 0 <= i < n ==> ColumnSum(w, contributors.Length, i) != 0.0
    ensures EndsNonzero(contributors, Normalized(w, contributors.Length, n))
  {
    hide ColumnSum;
    forall j | 0 <= j < contributors.Length
      ensures Normalized(w, contributors.Length, n)(j, contributors[j].n1) != 0.0
    {
      var i := contributors[j].n1;
      if 0 <= i < n {
        var total := ColumnSum(w, contributors.Length, i);
        assert 1.0 / total * total == 1.0;
        NonzeroProduct(w(j, i), 1.0 / total);
      }
    }
  }

  method SkipZeros(contributors: array<Contributors>, coefficients: array2<real>, ghost v: (int, int) -> real)
    requires Holds(contributors, coefficients, v) && EndsNonzero(contributors, v)
    modifies contributors, coefficients
    ensures Holds(contributors, coefficients, (j, i) => if i >= 0 then v(j, i) else 0.0)
    ensures forall j :: 0 <= j < contributors.Length ==>
      && 0 <= contributors[j].n0 && old(contributors[j].n0) <= contributors[j].n0
      && contributors[j].n1 == old(contributors[j].n1)
  {
    hide EffectiveWeight;
    var j := 0;
    while j < contributors.Length
      invariant 0 <= j <= contributors.Length
      invariant Holds(contributors, coefficients, (m, i) => if m >= j || i >= 0 then v(m, i) else 0.0)
      invariant forall m :: 0 <= m < j ==> 0 <= contributors[m].n0 && old(contributors[m].n0) <= contributors[m].n0
      invariant forall m :: 0 <= m < contributors.Length ==> contributors[m].n1 == old(contributors[m].n1)
      invariant forall m :: j <= m < contributors.Length ==> contributors[m] == old(contributors[m])
    {
      TrimGroup(contributors, coefficients, j, (m, i) => if m >= j || i >= 0 then v(m, i) else 0.0);
      j := j + 1;
    }
  }

  method ClampToOutput(contributors: array<Contributors>, coefficients: array2<real>, outputSize: nat,
                       ghost v: (int, int) -> real)
    requires Holds(contributors, coefficients, v)
    modifies contributors
    ensures Holds(contributors, coefficients, (j, i) => if i < outputSize then v(j, i) else 0.0)
    ensures forall j :: 0 <= j < contributors.Length ==>
      && contributors[j].n0 == old(contributors[j].n0)
      && contributors[j].n1 < outputSize && contributors[j].n1 <= old(contributors[j].n1)
  {
    var j := 0;
    while j < contributors.Length
      invariant 0 <= j <= contributors.Length
      invariant Holds(contributors, coefficients, (m, i) => if m >= j || i < outputSize then v(m, i) else 0.0)
      invariant forall m :: 0 <= m < j ==>
        && contributors[m].n0 == old(contributors[m].n0)
        && contributors[m].n1 < outputSize && contributors[m].n1 <= old(contributors[m].n1)
      invariant forall m :: j <= m < contributors.Length ==> contributors[m] == old(contributors[m])
    {
      label before:
      var n1 := contributors[j].n1;
      contributors[j] := contributors[j].(n1 := if n1 < outputSize - 1 then n1 else outputSize - 1);
      forall m, i | 0 <= m < contributors.Length
        ensures EffectiveWeight(contributors, coefficients, m, i) ==
                if m >= j + 1 || i < outputSize then v(m, i) else 0.0
      {
        assert old@before(EffectiveWeight(contributors, coefficients, m, i)) ==
               if m >= j || i < outputSize then v(m, i) else 0.0;
      }
      j := j + 1;
    }
  }

  // ----- Whole tables -----

  /** The weight of input pixel `k` in output pixel `n`, when enlarging. */
  ghost function UpsampleWeights(f: Filter, scale: real, shift: real): (int, int) -> real
    requires scale > 0.0
  {
    (n, k) => Weight(f, Center(scale, shift, n), FilterScale(scale))(k)
  }

  /** The weight of input pixel `n - margin` on output pixel `k`, when shrinking. */
  ghost function DownsampleWeights(f: Filter, scale: real, shift: real): (int, int) -> real
    requires 0.0 < scale <= 1.0
  {
    (n, k) => Weight(f, Center(scale, shift, n - FilterPixelMargin(f, scale)), scale)(k) * scale
  }

  method CalculateFiltersUpsample(f: Filter, scale: real, shift: real, contributors: array<Contributors>,
                                  coefficients: array2<real>)
    requires scale > 1.0
    requires contributors.Length == coefficients.Length0 && coefficients.Length1 == CoefficientWidth(f, scale)
    modifies contributors, coefficients
    ensures Holds(contributors, coefficients, UpsampleWeights(f, scale, shift))
    ensures forall n :: 0 <= n < contributors.Length ==>
      var r := SampleRange(f, scale, shift, n); r.first <= contributors[n].n0 <= contributors[n].n1 <= r.last
  {
    hide EffectiveWeight, Weight, Window, Support, FilterScale, SampleRange, Center, CoefficientWidth, FilterPixelWidth;
    ghost var w := UpsampleWeights(f, scale, shift);
    var n := 0;
    while n < contributors.Length
      invariant 0 <= n <= contributors.Length
      invariant HoldsFirst(contributors, coefficients, w, n)
      invariant forall m :: 0 <= m < n ==>
        var r := SampleRange(f, scale, shift, m); r.first <= contributors[m].n0 <= contributors[m].n1 <= r.last
    {
      var range := UpsampleRange(n, Radius(f, scale), scale, shift);
      WindowOf(f, scale, shift, n);
      CalculateCoefficientsUpsample(f, FilterScale(scale), range, contributors, coefficients, n, w);
      n := n + 1;
    }
  }

  lemma WindowOf(f: Filter, scale: real, shift: real, n: int)
    requires scale > 0.0
    ensures var r := SampleRange(f, scale, shift, n);
      && r == (if Upsampling(scale) then UpsampleRange(n, Radius(f, scale), scale, shift)
               else DownsampleRange(n, Radius(f, scale), scale, shift))
      && r == Window(r.center, Support(f, FilterScale(scale))) && r.center == Center(scale, shift, n)
      && 0 <= r.last - r.first < CoefficientWidth(f, scale)
  {
    hide CoefficientWidth, FilterPixelWidth, Center, Support, FilterScale, Radius, UpsampleRange, DownsampleRange;
    SampleRangeIsWindow(f, scale, shift, n);
    RangesAdvance(f, scale, shift, n);
    RangeFits(f, scale, shift, n);
  }

  method CalculateFiltersDownsample(f: Filter, scale: real, shift: real, outputSize: nat,
                                    contributors: array<Contributors>, coefficients: array2<real>)
    requires 0.0 < scale <= 1.0
    requires contributors.Length == coefficients.Length0 && coefficients.Length1 == CoefficientWidth(f, scale)
    requires forall i ::
      0 <= i < outputSize ==> ColumnSum(DownsampleWeights(f, scale, shift), contributors.Length, i) != 0.0
    modifies contributors, coefficients
    ensures var w := DownsampleWeights(f, scale, shift);
      Holds(contributors, coefficients, Clipped(Normalized(w, contributors.Length, outputSize), outputSize))
    ensures forall n :: 0 <= n < contributors.Length ==>
      var r := SampleRange(f, scale, shift, n - FilterPixelMargin(f, scale));
      var c := contributors[n];
      0 <= c.n0 && r.first <= c.n0 && c.n1 < outputSize && c.n1 <= r.last
  {
    hide EffectiveWeight, Weight, Window, Support, SampleRange, Center, CoefficientWidth, FilterPixelWidth,
         FilterPixelMargin, ColumnSum;
    ghost var w := DownsampleWeights(f, scale, shift);
    var margin := FilterPixelMargin(f, scale);
    var n := 0;
    while n < contributors.Length
      invariant 0 <= n <= contributors.Length
      invariant HoldsFirst(contributors, coefficients, w, n)
      invariant forall m :: 0 <= m < n ==> w(m, contributors[m].n1) != 0.0
      invariant forall m :: 0 <= m < n ==> var r := SampleRange(f, scale, shift, m - margin);
        r.first == contributors[m].n0 <= contributors[m].n1 <= r.last
    {
      var range := DownsampleRange(n - margin, Radius(f, scale), scale, shift);
      WindowOf(f, scale, shift, n - margin);
      CalculateCoefficientsDownsample(f, scale, range, contributors, coefficients, n, w);
      EndWeight(contributors, coefficients, n);
      n := n + 1;
    }
    GroupsInOrder(f, scale, shift, margin, contributors);
    NormalizeDownsampleCoefficients(contributors, coefficients, outputSize, w);
  }

  lemma GroupsInOrder(f: Filter, scale: real, shift: real, margin: int, contributors: array<Contributors>)
    requires scale > 0.0
    requires forall n :: 0 <= n < contributors.Length ==>
      contributors[n].n0 == SampleRange(f, scale, shift, n - margin).first
    ensures Monotone(contributors[..])
  {
    hide SampleRange;
    forall j, k | 0 <= j <= k < contributors.Length
      ensures contributors[j].n0 <= contributors[k].n0
    {
      FirstsIncrease(f, scale, shift, j - margin, k - margin);
    }
  }

  lemma EndWeight(contributors: array<Contributors>, coefficients: array2<real>, n: nat)
    requires n < contributors.Length == coefficients.Length0 && Fits(contributors[n], coefficients.Length1)
    requires contributors[n].n0 <= contributors[n].n1
    ensures EffectiveWeight(contributors, coefficients, n, contributors[n].n1) ==
            coefficients[n, contributors[n].n1 - contributors[n].n0]
  {}

  lemma {:induction false} FirstsIncrease(f: Filter, scale: real, shift: real, m: int, n: int)
    requires scale > 0.0 && m <= n
    ensures SampleRange(f, scale, shift, m).first <= SampleRange(f, scale, shift, n).first
    ensures SampleRange(f, scale, shift, m).last <= SampleRange(f, scale, shift, n).last
    decreases n - m
  {
    hide SampleRange;
    if m < n {
      FirstsIncrease(f, scale, shift, m, n - 1);
      RangesAdvance(f, scale, shift, n - 1);
    }
  }
}
