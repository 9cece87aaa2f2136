/** The coefficient tables of src/stb/stb_image_resize.h: computed, normalised and trimmed in place. */
module Coefficients {
  import opened SampleRanges
  import opened FilterProperties
  import opened Sums

  /** The pixels a coefficient group is for. */
  datatype Contributors = Contributors(n0: int, n1: int)

  /** What group `j` contributes to (or takes from) pixel `i`, whatever its layout. */
  ghost function EffectiveWeight(contributors: array<Contributors>, coefficients: array2<real>, j: int, i: int): real
    requires 0 <= j < contributors.Length == coefficients.Length0
    requires Fits(contributors[j], coefficients.Length1)
    reads contributors, coefficients
  {
    var c := contributors[j];
    if c.n0 <= i <= c.n1 then coefficients[j, i - c.n0] else 0.0
  }

  predicate Fits(c: Contributors, width: nat) {
    c.n1 - c.n0 + 1 <= width
  }

  /** The first `n` groups hold the weights `w`. */
  ghost predicate HoldsFirst(contributors: array<Contributors>, coefficients: array2<real>, w: (int, int) -> real,
                             n: nat)
    reads contributors, coefficients
  {
    && n <= contributors.Length == coefficients.Length0
    && (forall j :: 0 <= j < n ==> Fits(contributors[j], coefficients.Length1))
    && forall j, i :: 0 <= j < n ==> EffectiveWeight(contributors, coefficients, j, i) == w(j, i)
  }

  /** The tables hold the weights `w`. */
  ghost predicate Holds(contributors: array<Contributors>, coefficients: array2<real>, w: (int, int) -> real)
    reads contributors, coefficients
  {
    HoldsFirst(contributors, coefficients, w, contributors.Length)
  }

  // ----- Upsampling -----

  lemma KernelIsEven(f: Filter, x: real, scale: real)
    requires 0.0 < scale <= 1.0
    ensures Kernel(f, -x, scale) == Kernel(f, x, scale)
  {}

  lemma WindowHasWeights(f: Filter, center: real, scale: real, k: int)
    requires 0.0 < scale <= 1.0 && Weight(f, center, scale)(k) != 0.0
    ensures var r := Window(center, Support(f, scale)); r.first <= k <= r.last
  {
    KernelHasSupport(f, k as real + 0.5 - center, scale);
    hide Kernel, Support;
  }

  /** Only group `n` differs from before. */
  twostate predicate OtherGroupsKept(coefficients: array2<real>, n: nat)
    reads coefficients
  {
    forall m, c :: 0 <= m < coefficients.Length0 && m != n && 0 <= c < coefficients.Length1 ==>
      coefficients[m, c] == old(coefficients[m, c])
  }

  /** Computes the weights from the first nonzero one on, and their total. */
  method ComputeWeights(f: Filter, scale: real, range: Range, coefficients: array2<real>, n: nat)
    returns (first: int, total: real)
    requires 0.0 < scale <= 1.0 && n < coefficients.Length0
    requires 0 <= range.last - range.first < coefficients.Length1
    modifies coefficients
    ensures var w := Weight(f, range.center, scale);
      && range.first <= first <= range.last + 1
      && (forall k :: range.first <= k < first ==> w(k) == 0.0)
      && (forall k :: first <= k <= range.last ==> coefficients[n, k - first] == w(k))
      && (first <= range.last ==> w(first) != 0.0)
      && total == Sum(w, first, range.last + 1)
    ensures OtherGroupsKept(coefficients, n)
  {
    hide Kernel;
    ghost var w := Weight(f, range.center, scale);
    var last, center := range.last, range.center;
    first, total := range.first, 0.0;
    var i: int := 0;
    while i <= last - first
      invariant range.first <= first && 0 <= i <= last - first + 1
      invariant forall k :: range.first <= k < first ==> w(k) == 0.0
      invariant forall k :: first <= k < first + i ==> coefficients[n, k - first] == w(k)
      invariant i > 0 ==> w(first) != 0.0
      invariant total == Sum(w, first, first + i)
      invariant OtherGroupsKept(coefficients, n)
      decreases last - first - i
    {
      var inPixelCenter := (i + first) as real + 0.5;
      KernelIsEven(f, inPixelCenter - center, scale);
      assert center - inPixelCenter == -(inPixelCenter - center);
      coefficients[n, i] := Kernel(f, center - inPixelCenter, scale);
      assert coefficients[n, i] == w(first + i);
      if i == 0 && coefficients[n, i] == 0.0 {
        first := first + 1;
        continue;
      }
      total := total + coefficients[n, i];
      i := i + 1;
    }
  }

  /** Drops the trailing zeros of group `n`, which starts at `first` and has a nonzero coefficient
      for some pixel `p`: it still holds the (scaled) weights of all pixels. */
  method DropTrailingZeros(f: Filter, scale: real, range: Range, contributors: array<Contributors>,
                           coefficients: array2<real>,
                           n: nat, first: int, ghost factor: real, ghost p: int)
    requires 0.0 < scale <= 1.0 && range == Window(range.center, Support(f, scale))
    requires n < contributors.Length == coefficients.Length0
    requires 0 <= range.last - range.first < coefficients.Length1
    requires range.first <= first <= p <= range.last && coefficients[n, p - first] != 0.0
    requires var w := Weight(f, range.center, scale);
      && (forall k :: range.first <= k < first ==> w(k) == 0.0)
      && (forall k :: first <= k <= range.last ==> coefficients[n, k - first] == w(k) * factor)
    modifies contributors
    ensures var c := contributors[n];
      first == c.n0 <= c.n1 <= range.last && coefficients[n, c.n1 - c.n0] != 0.0
    ensures forall k :: EffectiveWeight(contributors, coefficients, n, k) == Weight(f, range.center, scale)(k) * factor
    ensures forall m :: 0 <= m < contributors.Length && m != n ==> contributors[m] == old(contributors[m])
  {
    hide Kernel, Support, Window, Weight;
    ghost var w := Weight(f, range.center, scale);
    var n1 := range.last;
    var i := range.last - first;
    while i >= 0
      invariant p - first <= i <= range.last - first && n1 == first + i
      invariant forall c :: i < c <= range.last - first ==> coefficients[n, c] == 0.0
    {
      if coefficients[n, i] != 0.0 { break; }
      n1 := first + i - 1;
      i := i - 1;
    }
    contributors[n] := Contributors(first, n1);
    forall k
      ensures EffectiveWeight(contributors, coefficients, n, k) == w(k) * factor
    {
      if w(k) != 0.0 { WindowHasWeights(f, range.center, scale, k); }
      if n1 < k <= range.last { assert coefficients[n, k - first] == w(k) * factor; }
    }
  }

  /** Multiplies the first coefficients of group `n`, up to place `last`. */
  method ScaleGroup(coefficients: array2<real>, n: nat, last: int, filterScale: real)
    requires n < coefficients.Length0 && last < coefficients.Length1
    modifies coefficients
    ensures forall c :: 0 <= c <= last ==> coefficients[n, c] == old(coefficients[n, c]) * filterScale
    ensures OtherGroupsKept(coefficients, n)
  {
    var i := 0;
    while i <= last
      invariant 0 <= i && (i > 0 ==> i <= last + 1)
      invariant forall c :: 0 <= c < i ==> coefficients[n, c] == old(coefficients[n, c]) * filterScale
      invariant forall c :: i <= c <= last ==> coefficients[n, c] == old(coefficients[n, c])
      invariant OtherGroupsKept(coefficients, n)
    {
      coefficients[n, i] := coefficients[n, i] * filterScale;
      i := i + 1;
    }
  }

  /** Skipping leading zeros loses nothing of the total. */
  lemma TotalIsOne(f: Filter, scale: real, range: Range, first: int)
    requires 0.0 < scale <= 1.0 && range == Window(range.center, Support(f, scale))
    requires range.first <= first <= range.last + 1
    requires forall k :: range.first <= k < first ==> Weight(f, range.center, scale)(k) == 0.0
    ensures Sum(Weight(f, range.center, scale), first, range.last + 1) == 1.0 && first <= range.last
  {
    hide Kernel, Support, Window, Weight;
    WeightsSumToOne(f, range.center, scale);
    SumSupport(Weight(f, range.center, scale), range.first, range.last + 1, first, range.last + 1);
  }

  /** Computes the weights and scales them to sum to one. */
  method ComputeNormalizedWeights(f: Filter, scale: real, range: Range, coefficients: array2<real>, n: nat)
    returns (first: int)
    requires 0.0 < scale <= 1.0 && range == Window(range.center, Support(f, scale)) && n < coefficients.Length0
    requires 0 <= range.last - range.first < coefficients.Length1
    modifies coefficients
    ensures var w := Weight(f, range.center, scale);
      && range.first <= first <= range.last
      && (forall k :: range.first <= k < first ==> w(k) == 0.0)
      && (forall k :: first <= k <= range.last ==> coefficients[n, k - first] == w(k) * 1.0)
    ensures coefficients[n, 0] != 0.0
    ensures OtherGroupsKept(coefficients, n)
  {
    hide Kernel, Support, Window, Weight;
    var total;
    first, total := ComputeWeights(f, scale, range, coefficients, n);
    TotalIsOne(f, scale, range, first);
    ScaleGroup(coefficients, n, range.last - first, 1.0 / total);
    assert coefficients[n, first - first] == Weight(f, range.center, scale)(first) * 1.0;
  }

  /** One coefficient group for one output pixel: leading zeros are skipped while it is computed,
      the rest is scaled to sum to one, trailing zeros are dropped. */
  method CalculateCoefficientsUpsample(f: Filter, scale: real, range: Range, contributors: array<Contributors>,
                                       coefficients: array2<real>, n: nat, ghost w: (int, int) -> real)
    requires 0.0 < scale <= 1.0 && range == Window(range.center, Support(f, scale))
    requires n < contributors.Length == coefficients.Length0
    requires 0 <= range.last - range.first < coefficients.Length1
    requires HoldsFirst(contributors, coefficients, w, n) && forall k :: w(n, k) == Weight(f, range.center, scale)(k)
    modifies contributors, coefficients
    ensures var c := contributors[n];
      && range.first <= c.n0 <= c.n1 <= range.last
      && coefficients[n, 0] != 0.0 && coefficients[n, c.n1 - c.n0] != 0.0
    ensures HoldsFirst(contributors, coefficients, w, n + 1)
    ensures forall m :: 0 <= m < contributors.Length && m != n ==> contributors[m] == old(contributors[m])
  {
    hide Kernel, Support, Window, Weight;
    var first := ComputeNormalizedWeights(f, scale, range, coefficients, n);
    DropTrailingZeros(f, scale, range, contributors, coefficients, n, first, 1.0, first);
    assert forall k :: EffectiveWeight(contributors, coefficients, n, k) == Weight(f, range.center, scale)(k) * 1.0;
    forall m, k | 0 <= m < n
      ensures EffectiveWeight(contributors, coefficients, m, k) == w(m, k)
    {
      assert old(EffectiveWeight(contributors, coefficients, m, k)) == w(m, k);
    }
  }

  // ----- Downsampling -----

  /** One coefficient group for one input pixel, not normalised yet. */
  method CalculateCoefficientsDownsample(f: Filter, scaleRatio: real, range: Range, contributors: array<Contributors>,
                                         coefficients: array2<real>, n: nat, ghost w: (int, int) -> real)
    requires 0.0 < scaleRatio <= 1.0 && range == Window(range.center, Support(f, scaleRatio))
    requires n < contributors.Length == coefficients.Length0
    requires 0 <= range.last - range.first < coefficients.Length1
    modifies contributors, coefficients
    ensures var c := contributors[n];
      && range.first == c.n0 <= c.n1 <= range.last
      && coefficients[n, c.n1 - c.n0] != 0.0
    requires HoldsFirst(contributors, coefficients, w, n)
    requires forall k :: w(n, k) == Weight(f, range.center, scaleRatio)(k) * scaleRatio
    ensures HoldsFirst(contributors, coefficients, w, n + 1)
    ensures forall m :: 0 <= m < contributors.Length && m != n ==> contributors[m] == old(contributors[m])
  {
    hide Kernel, Support, Window, Weight;
    ghost var v := Weight(f, range.center, scaleRatio);
    ComputeWeightsDownsample(f, scaleRatio, range, coefficients, n);
    GroupHasWeight(f, range.center, scaleRatio);
    ghost var p :| range.first <= p <= range.last && v(p) != 0.0;
    NonzeroProduct(v(p), scaleRatio);
    assert coefficients[n, p - range.first] == v(p) * scaleRatio;
    DropTrailingZeros(f, scaleRatio, range, contributors, coefficients, n, range.first, scaleRatio, p);
    forall m, k | 0 <= m < n
      ensures EffectiveWeight(contributors, coefficients, m, k) == w(m, k)
    {
      assert old(EffectiveWeight(contributors, coefficients, m, k)) == w(m, k);
    }
  }

  method ComputeWeightsDownsample(f: Filter, scaleRatio: real, range: Range, coefficients: array2<real>, n: nat)
    requires 0.0 < scaleRatio <= 1.0 && n < coefficients.Length0
    requires 0 <= range.last - range.first < coefficients.Length1
    modifies coefficients
    ensures forall k :: range.first <= k <= range.last ==>
      coefficients[n, k - range.first] == Weight(f, range.center, scaleRatio)(k) * scaleRatio
    ensures OtherGroupsKept(coefficients, n)
  {
    hide Kernel;
    ghost var w := Weight(f, range.center, scaleRatio);
    var first, i: int := range.first, 0;
    while i <= range.last - first
      invariant 0 <= i <= range.last - first + 1
      invariant forall k :: first <= k < first + i ==> coefficients[n, k - first] == w(k) * scaleRatio
      invariant OtherGroupsKept(coefficients, n)
    {
      var outPixelCenter := (i + first) as real + 0.5;
      coefficients[n, i] := Kernel(f, outPixelCenter - range.center, scaleRatio) * scaleRatio;
      assert coefficients[n, i] == w(first + i) * scaleRatio;
      i := i + 1;
    }
  }

  // ----- Normalisation -----

  /** What all groups together contribute to pixel `i`. */
  ghost function ColumnSum(w: (int, int) -> real, groups: int, i: int): real {
    Sum(j => w(j, i), 0, groups)
  }

  /** Groups start no sooner than the groups before them. */
  ghost predicate Monotone(contributors: seq<Contributors>) {
    forall j, k :: 0 <= j <= k < |contributors| ==> contributors[j].n0 <= contributors[k].n0
  }

  /** The total weight on pixel `i`; stops at the first group that starts behind it. */
  method ColumnTotal(contributors: array<Contributors>, coefficients: array2<real>, i: int, ghost w: (int, int) -> real)
    returns (total: real)
    requires Holds(contributors, coefficients, w) && Monotone(contributors[..])
    ensures total == ColumnSum(w, contributors.Length, i)
  {
    ghost var column := j => w(j, i);
    total := 0.0;
    var j := 0;
    while j < contributors.Length
      invariant 0 <= j <= contributors.Length && total == Sum(column, 0, j)
    {
      assert EffectiveWeight(contributors, coefficients, j, i) == column(j);
      if contributors[j].n0 <= i <= contributors[j].n1 {
        total := total + coefficients[j, i - contributors[j].n0];
      } else if i < contributors[j].n0 {
        break;
      }
      j := j + 1;
    }
    RestIsZero(contributors, coefficients, i, w, j);
    SumSupport(column, 0, contributors.Length, 0, j);
    assert ColumnSum(w, contributors.Length, i) == Sum(column, 0, contributors.Length);
  }

  /** Behind a group that starts after `i`, no group has weight on `i`. */
  lemma RestIsZero(contributors: array<Contributors>, coefficients: array2<real>, i: int, w: (int, int) -> real, j: nat)
    requires Holds(contributors, coefficients, w) && Monotone(contributors[..])
    requires j <= contributors.Length && (j < contributors.Length ==> i < contributors[j].n0)
    ensures forall k :: j <= k < contributors.Length ==> w(k, i) == 0.0
  {
    forall k | j <= k < contributors.Length
      ensures w(k, i) == 0.0
    {
      assert contributors[..][j].n0 <= contributors[..][k].n0;
      assert EffectiveWeight(contributors, coefficients, k, i) == w(k, i);
    }
  }

  /** `w` with pixel `i` scaled. */
  ghost function Scaled(w: (int, int) -> real, i: int, scale: real): (int, int) -> real {
    (j, k) => if k == i then w(j, k) * scale else w(j, k)
  }

  method ScaleColumn(contributors: array<Contributors>, coefficients: array2<real>, i: int, scale: real,
                     ghost w: (int, int) -> real)
    requires Holds(contributors, coefficients, w) && Monotone(contributors[..])
    modifies coefficients
    ensures Holds(contributors, coefficients, Scaled(w, i, scale))
  {
    var j := 0;
    while j < contributors.Length
      invariant 0 <= j <= contributors.Length
      invariant Holds(contributors, coefficients, (m, k) => if m < j then Scaled(w, i, scale)(m, k) else w(m, k))
    {
      assert EffectiveWeight(contributors, coefficients, j, i) == w(j, i);
      if contributors[j].n0 <= i <= contributors[j].n1 {
        ScaleOne(contributors, coefficients, j, i, scale,
                 (m, k) => if m < j then Scaled(w, i, scale)(m, k) else w(m, k));
      } else if i < contributors[j].n0 {
        break;
      }
      j := j + 1;
    }
    if j < contributors.Length {
      RestIsZero(contributors, coefficients, i, (m, k) => if m < j then Scaled(w, i, scale)(m, k) else w(m, k), j);
    }
  }

  method ScaleOne(contributors: array<Contributors>, coefficients: array2<real>, j: nat, i: int, scale: real,
                  ghost w: (int, int) -> real)
    requires Holds(contributors, coefficients, w)
    requires j < contributors.Length && contributors[j].n0 <= i <= contributors[j].n1
    modifies coefficients
    ensures Holds(contributors, coefficients, (m, k) => if m == j && k == i then w(m, k) * scale else w(m, k))
  {
    var c := i - contributors[j].n0;
    ghost var before := EffectiveWeight(contributors, coefficients, j, i);
    coefficients[j, c] := coefficients[j, c] * scale;
    forall m, k | 0 <= m < contributors.Length && !(m == j && k == i)
      ensures EffectiveWeight(contributors, coefficients, m, k) == w(m, k)
    {
      assert old(EffectiveWeight(contributors, coefficients, m, k)) == w(m, k);
    }
  }

  /** Every group ends with a nonzero coefficient. */
  ghost predicate EndsNonzero(contributors: array<Contributors>, w: (int, int) -> real)
    reads contributors
  {
    forall j :: 0 <= j < contributors.Length ==>
      contributors[j].n0 <= contributors[j].n1 && w(j, contributors[j].n1) != 0.0
  }

  /** `w` with the weights on each of the pixels [0, n) scaled to sum to one. */
  ghost function Normalized(w: (int, int) -> real, groups: int, n: int): (int, int) -> real
    requires forall i :: 0 <= i < n ==> ColumnSum(w, groups, i) != 0.0
  {
    (j, i) => if 0 <= i < n then w(j, i) * (1.0 / ColumnSum(w, groups, i)) else w(j, i)
  }

  /** `w` on the pixels [0, n) only. */
  ghost function Clipped(w: (int, int) -> real, n: int): (int, int) -> real {
    (j, i) => if 0 <= i < n then w(j, i) else 0.0
  }

  lemma NormalizedSum(w: (int, int) -> real, groups: int, n: int, i: int)
    requires forall k :: 0 <= k < n ==> ColumnSum(w, groups, k) != 0.0
    ensures 0 <= i < n ==> ColumnSum(Clipped(Normalized(w, groups, n), n), groups, i) == 1.0
    ensures !(0 <= i < n) ==> ColumnSum(Normalized(w, groups, n), groups, i) == ColumnSum(w, groups, i)
  {
    var column := j => w(j, i);
    if 0 <= i < n {
      var scale := 1.0 / ColumnSum(w, groups, i);
      SumScale(column, scale, 0, groups);
      var v := Clipped(Normalized(w, groups, n), n);
      SumEqual(j => v(j, i), j => column(j) * scale, 0, groups);
    } else {
      var v := Normalized(w, groups, n);
      SumEqual(j => v(j, i), column, 0, groups);
    }
  }

  /** Scales the weights on every output pixel to sum to one. */
  method NormalizeColumns(contributors: array<Contributors>, coefficients: array2<real>, outputSize: nat,
                          ghost w: (int, int) -> real)
    requires Holds(contributors, coefficients, w) && Monotone(contributors[..])
    requires forall i :: 0 <= i < outputSize ==> ColumnSum(w, contributors.Length, i) != 0.0
    modifies coefficients
    ensures Holds(contributors, coefficients, Normalized(w, contributors.Length, outputSize))
  {
    hide ColumnSum, EffectiveWeight;
    var i := 0;
    while i < outputSize
      invariant 0 <= i <= outputSize
      invariant Holds(contributors, coefficients, Normalized(w, contributors.Length, i))
    {
      ghost var v := Normalized(w, contributors.Length, i);
      var total := ColumnTotal(contributors, coefficients, i, v);
      NormalizedSum(w, contributors.Length, i, i);
      ScaleColumn(contributors, coefficients, i, 1.0 / total, v);
      i := i + 1;
    }
  }

  /** Moves group `j` over its leading zeros and over the pixels below 0. */
  method TrimGroup(contributors: array<Contributors>, coefficients: array2<real>, j: nat, ghost v: (int, int) -> real)
    requires Holds(contributors, coefficients, v) && j < contributors.Length
    requires contributors[j].n0 <= contributors[j].n1 && v(j, contributors[j].n1) != 0.0
    modifies contributors, coefficients
    ensures Holds(contributors, coefficients, (m, i) => if m != j || i >= 0 then v(m, i) else 0.0)
    ensures contributors[j].n0 >= 0 && contributors[j].n0 >= old(contributors[j].n0)
    ensures contributors[j].n1 == old(contributors[j].n1)
    ensures forall m :: 0 <= m < contributors.Length && m != j ==> contributors[m] == old(contributors[m])
  {
    ghost var w := i => v(j, i);
    GroupEntries(contributors, coefficients, j, w);
    MoveGroup(contributors, coefficients, j, w);
    ghost var trimmed := i => if i >= 0 then w(i) else 0.0;
    TrimmedWeights(contributors, coefficients, j, trimmed);
    assert forall i :: EffectiveWeight(contributors, coefficients, j, i) == trimmed(i);
    forall m, i | 0 <= m < contributors.Length && m != j
      ensures EffectiveWeight(contributors, coefficients, m, i) == v(m, i)
    {
      assert old(EffectiveWeight(contributors, coefficients, m, i)) == v(m, i);
    }
  }

  method MoveGroup(contributors: array<Contributors>, coefficients: array2<real>, j: nat, ghost w: int -> real)
    requires j < contributors.Length == coefficients.Length0 && Fits(contributors[j], coefficients.Length1)
    requires GroupIs(contributors, coefficients, j, w)
    requires contributors[j].n0 <= contributors[j].n1 && w(contributors[j].n1) != 0.0
    modifies contributors, coefficients
    ensures contributors[j].n0 >= 0 && contributors[j].n0 >= old(contributors[j].n0)
    ensures contributors[j].n1 == old(contributors[j].n1) && Fits(contributors[j], coefficients.Length1)
    ensures GroupIs(contributors, coefficients, j, i => if i >= 0 then w(i) else 0.0)
    ensures forall m :: 0 <= m < contributors.Length && m != j ==> contributors[m] == old(contributors[m])
    ensures OtherGroupsKept(coefficients, j)
  {
    var width := coefficients.Length1;
    var n0, n1 := contributors[j].n0, contributors[j].n1;
    ghost var start := n0;
    var skip := 0;
    while coefficients[j, skip] == 0.0
      invariant 0 <= skip <= n1 - start < width
      invariant forall k :: k < start + skip ==> w(k) == 0.0
      decreases n1 - start - skip
    {
      assert coefficients[j, skip] == w(start + skip);
      skip := skip + 1;
    }
    n0 := n0 + skip;
    while n0 < 0
      invariant n0 == start + skip && skip >= 0
      invariant forall k :: 0 <= k < n0 ==> w(k) == 0.0
    {
      n0, skip := n0 + 1, skip + 1;
    }
    var range := n1 - n0 + 1;
    var max := if width < range then width else range;
    var i := 0;
    while i < max
      invariant 0 <= i && (i > 0 ==> i <= max)
      invariant forall k :: n0 <= k < n0 + i ==> coefficients[j, k - n0] == w(k)
      invariant forall k :: n0 + i <= k <= n1 ==> coefficients[j, k - start] == w(k)
      invariant OtherGroupsKept(coefficients, j) && contributors[..] == old(contributors[..])
    {
      if i + skip >= width { break; }
      assert coefficients[j, i + skip] == w(n0 + i);
      coefficients[j, i] := coefficients[j, i + skip];
      i := i + 1;
    }
    contributors[j] := Contributors(n0, n1);
  }

  /** Entry by entry, group `j` is `w`. */
  ghost predicate GroupIs(contributors: array<Contributors>, coefficients: array2<real>, j: nat, w: int -> real)
    requires j < contributors.Length == coefficients.Length0 && Fits(contributors[j], coefficients.Length1)
    reads contributors, coefficients
  {
    var c := contributors[j];
    && (forall i :: c.n0 <= i <= c.n1 ==> coefficients[j, i - c.n0] == w(i))
    && (forall i :: !(c.n0 <= i <= c.n1) ==> w(i) == 0.0)
  }

  lemma GroupEntries(contributors: array<Contributors>, coefficients: array2<real>, j: nat, w: int -> real)
    requires j < contributors.Length == coefficients.Length0 && Fits(contributors[j], coefficients.Length1)
    requires forall i :: EffectiveWeight(contributors, coefficients, j, i) == w(i)
    ensures GroupIs(contributors, coefficients, j, w)
  {
    forall i
      ensures var c := contributors[j]; if c.n0 <= i <= c.n1 then coefficients[j, i - c.n0] == w(i) else w(i) == 0.0
    {
      assert EffectiveWeight(contributors, coefficients, j, i) == w(i);
    }
  }

  lemma TrimmedWeights(contributors: array<Contributors>, coefficients: array2<real>, j: nat, w: int -> real)
    requires j < contributors.Length == coefficients.Length0 && Fits(contributors[j], coefficients.Length1)
    requires GroupIs(contributors, coefficients, j, w)
    ensures forall i :: EffectiveWeight(contributors, coefficients, j, i) == w(i)
  {}
}
