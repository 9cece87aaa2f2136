/** Resampling along a scanline (src/stb/stb_image_resize.h): gathering when a line grows,
    scattering when it shrinks. Either way the result is one weighted sum for each output pixel. */
module LineResampler {
  import opened Coefficients
  import opened Sums

  /** Pixel `x` gathered from a line: the sum of weights(x, k) * line(k). */
  ghost function Gathered(weights: (int, int) -> real, line: int -> real, x: int, lo: int, hi: int): real {
    Sum(k => weights(x, k) * line(k), lo, hi)
  }

  lemma GatheredEmpty(weights: (int, int) -> real, line: int -> real, x: int, lo: int)
    ensures Gathered(weights, line, x, lo, lo) == 0.0
  {}

  lemma GatheredStep(weights: (int, int) -> real, line: int -> real, x: int, lo: int, k: int)
    requires lo <= k
    ensures Gathered(weights, line, x, lo, k + 1) == Gathered(weights, line, x, lo, k) + line(k) * weights(x, k)
  {}

  /** A gathered sum does not depend on the range, as long as it covers the group. */
  lemma GatheredInRange(contributors: array<Contributors>, coefficients: array2<real>, weights: (int, int) -> real,
                        line: int -> real, x: nat, lo: int, hi: int)
    requires Holds(contributors, coefficients, weights) && x < contributors.Length
    requires lo <= contributors[x].n0 <= contributors[x].n1 + 1 <= hi
    ensures Gathered(weights, line, x, lo, hi) == Gathered(weights, line, x, contributors[x].n0, contributors[x].n1 + 1)
  {
    var terms := k => weights(x, k) * line(k);
    forall k | !(contributors[x].n0 <= k <= contributors[x].n1)
      ensures terms(k) == 0.0
    {
      assert EffectiveWeight(contributors, coefficients, x, k) == weights(x, k);
    }
    SumSupport(terms, lo, hi, contributors[x].n0, contributors[x].n1 + 1);
  }

  /** Pixel `x` after groups [0, n) were scattered; group `j` holds the weights of pixel `j - margin`. */
  ghost function Scattered(weights: (int, int) -> real, line: int -> real, margin: int, x: int, n: int): real {
    Sum(j => weights(j, x) * line(j - margin), 0, n)
  }

  /** The decode buffer holds `line`, with `margin` pixels on either side. */
  ghost predicate Decoded(decode: array<real>, margin: int, line: int -> real)
    reads decode
  {
    forall i :: 0 <= i < decode.Length ==> decode[i] == line(i - margin)
  }

  method ResampleHorizontalUpsample(contributors: array<Contributors>, coefficients: array2<real>, decode: array<real>,
                                    margin: int, output: array<real>, ghost weights: (int, int) -> real,
                                    ghost line: int -> real)
    requires Holds(contributors, coefficients, weights) && Decoded(decode, margin, line)
    requires output.Length == contributors.Length && output != decode
    requires forall x :: 0 <= x < contributors.Length ==> InBuffer(contributors[x], margin, decode.Length)
    modifies output
    ensures forall x :: 0 <= x < output.Length ==>
      output[x] == old(output[x]) + Gathered(weights, line, x, -margin, decode.Length - margin)
  {
    hide Gathered, EffectiveWeight;
    var x := 0;
    while x < output.Length
      invariant 0 <= x <= output.Length
      invariant forall m :: 0 <= m < x ==>
        output[m] == old(output[m]) + Gathered(weights, line, m, -margin, decode.Length - margin)
      invariant forall m :: x <= m < output.Length ==> output[m] == old(output[m])
    {
      GatherPixel(contributors, coefficients, decode, margin, output, x, weights, line);
      x := x + 1;
    }
  }

  /** The group takes pixels of the decode buffer only. */
  predicate InBuffer(c: Contributors, margin: int, length: nat) {
    -margin <= c.n0 <= c.n1 + 1 <= length - margin
  }

  method GatherPixel(contributors: array<Contributors>, coefficients: array2<real>, decode: array<real>, margin: int,
                     output: array<real>, x: nat, ghost weights: (int, int) -> real, ghost line: int -> real)
    requires Holds(contributors, coefficients, weights) && Decoded(decode, margin, line)
    requires x < output.Length == contributors.Length && output != decode
    requires InBuffer(contributors[x], margin, decode.Length)
    modifies output
    ensures output[x] == old(output[x]) + Gathered(weights, line, x, -margin, decode.Length - margin)
    ensures forall m :: 0 <= m < output.Length && m != x ==> output[m] == old(output[m])
  {
    hide EffectiveWeight, Holds, Gathered;
    var n0, n1 := contributors[x].n0, contributors[x].n1;
    GroupEntriesOf(contributors, coefficients, weights, x);
    GatheredEmpty(weights, line, x, n0);
    GatheredInRange(contributors, coefficients, weights, line, x, -margin, decode.Length - margin);
    var coefficientCounter := 0;
    var k := n0;
    while k <= n1
      invariant n0 <= k <= n1 + 1 && coefficientCounter == k - n0
      invariant output[x] == old(output[x]) + Gathered(weights, line, x, n0, k)
      invariant forall m :: 0 <= m < output.Length && m != x ==> output[m] == old(output[m])
    {
      var coefficient := coefficients[x, coefficientCounter];
      assert decode[k + margin] == line(k + margin - margin);
      GatheredStep(weights, line, x, n0, k);
      output[x] := output[x] + decode[k + margin] * coefficient;
      coefficientCounter, k := coefficientCounter + 1, k + 1;
    }
  }

  /** The entries of group `x` are its weights, and it has no others. */
  lemma GroupEntriesOf(contributors: array<Contributors>, coefficients: array2<real>, weights: (int, int) -> real,
                       x: nat)
    requires Holds(contributors, coefficients, weights) && x < contributors.Length
    ensures Fits(contributors[x], coefficients.Length1) && contributors.Length == coefficients.Length0
    ensures forall k ::
      contributors[x].n0 <= k <= contributors[x].n1 ==> coefficients[x, k - contributors[x].n0] == weights(x, k)
    ensures forall k :: !(contributors[x].n0 <= k <= contributors[x].n1) ==> weights(x, k) == 0.0
  {
    forall k
      ensures contributors[x].n0 <= k <= contributors[x].n1 ==> coefficients[x, k - contributors[x].n0] == weights(x, k)
      ensures !(contributors[x].n0 <= k <= contributors[x].n1) ==> weights(x, k) == 0.0
    {
      assert EffectiveWeight(contributors, coefficients, x, k) == weights(x, k);
    }
  }

  method ResampleHorizontalDownsample(contributors: array<Contributors>, coefficients: array2<real>,
                                      decode: array<real>,
                                      margin: int, output: array<real>, ghost weights: (int, int) -> real,
                                      ghost line: int -> real)
    requires Holds(contributors, coefficients, weights) && Decoded(decode, margin, line)
    requires decode.Length == contributors.Length && output != decode
    requires forall j :: 0 <= j < contributors.Length ==> 0 <= contributors[j].n0 && contributors[j].n1 < output.Length
    modifies output
    ensures forall x :: 0 <= x < output.Length ==>
      output[x] == old(output[x]) + Scattered(weights, line, margin, x, decode.Length)
  {
    hide EffectiveWeight;
    var x := 0;
    while x < decode.Length
      invariant 0 <= x <= decode.Length
      invariant forall m ::
        0 <= m < output.Length ==> output[m] == old(output[m]) + Scattered(weights, line, margin, m, x)
    {
      ScatterPixel(contributors, coefficients, output, x, decode[x], weights);
      forall m | 0 <= m < output.Length
        ensures Scattered(weights, line, margin, m, x + 1) ==
                Scattered(weights, line, margin, m, x) + weights(x, m) * decode[x]
      {
        assert decode[x] == line(x - margin);
      }
      x := x + 1;
    }
  }

  /** Adds what group `x` contributes of `value` to every pixel. */
  method ScatterPixel(contributors: array<Contributors>, coefficients: array2<real>, output: array<real>,
                      x: nat, value: real, ghost weights: (int, int) -> real)
    requires Holds(contributors, coefficients, weights) && x < contributors.Length
    requires 0 <= contributors[x].n0 && contributors[x].n1 < output.Length
    modifies output
    ensures forall m :: 0 <= m < output.Length ==> output[m] == old(output[m]) + weights(x, m) * value
  {
    var n0, n1 := contributors[x].n0, contributors[x].n1;
    var k := n0;
    while k <= n1
      invariant n0 <= k && (k > n0 ==> k <= n1 + 1)
      invariant forall m :: n0 <= m < k ==> output[m] == old(output[m]) + weights(x, m) * value
      invariant forall m :: 0 <= m < output.Length && !(n0 <= m < k) ==> output[m] == old(output[m])
    {
      var coefficient := coefficients[x, k - n0];
      assert coefficient == EffectiveWeight(contributors, coefficients, x, k) == weights(x, k);
      output[k] := output[k] + value * coefficient;
      k := k + 1;
    }
    forall m | 0 <= m < output.Length && !(n0 <= m <= n1)
      ensures weights(x, m) * value == 0.0
    {
      assert EffectiveWeight(contributors, coefficients, x, m) == weights(x, m);
    }
  }

  /** The line half of stbir__info. */
  class Line {
    const upsampling: bool
    const margin: int
    const width: nat
    const contributors: array<Contributors>
    const coefficients: array2<real>
    const decode: array<real>
    /** The decoded source image: line `n`, pixel `k`, edges included. */
    const pixels: (int, int) -> real
    ghost const weights: (int, int) -> real

    ghost predicate Valid()
      reads contributors, coefficients
    {
      && Holds(contributors, coefficients, weights)
      && if upsampling then
           width == contributors.Length &&
           forall x :: 0 <= x < width ==> InBuffer(contributors[x], margin, decode.Length)
         else
           decode.Length == contributors.Length && forall j :: 0 <= j < contributors.Length ==>
             0 <= contributors[j].n0 && contributors[j].n1 < width
    }

    constructor (upsampling: bool, margin: int, width: nat, contributors: array<Contributors>,
                 coefficients: array2<real>,
                 decode: array<real>, pixels: (int, int) -> real, ghost weights: (int, int) -> real)
      ensures this.upsampling == upsampling && this.margin == margin && this.width == width
      ensures this.contributors == contributors && this.coefficients == coefficients && this.decode == decode
      ensures this.pixels == pixels && this.weights == weights
    {
      this.upsampling, this.margin, this.width := upsampling, margin, width;
      this.contributors, this.coefficients, this.decode := contributors, coefficients, decode;
      this.pixels, this.weights := pixels, weights;
    }

    /** Pixel `x` of line `n`, resampled. */
    ghost function Scanline(n: int, x: int): real {
      var line := k => pixels(n, k);
      if upsampling then Gathered(weights, line, x, -margin, decode.Length - margin)
      else Scattered(weights, line, margin, x, decode.Length)
    }

    /** Decodes line `n` and resamples it into `output`, which has been cleared. */
    method DecodeAndResample(n: int, output: array<real>)
      requires Valid() && output != decode && output.Length == width
      requires forall x :: 0 <= x < width ==> output[x] == 0.0
      modifies decode, output
      ensures forall x :: 0 <= x < width ==> output[x] == Scanline(n, x)
    {
      hide EffectiveWeight;
      ghost var line := k => pixels(n, k);
      var i := 0;
      while i < decode.Length
        invariant 0 <= i <= decode.Length
        invariant forall m :: 0 <= m < i ==> decode[m] == line(m - margin)
        invariant forall x :: 0 <= x < width ==> output[x] == 0.0
      {
        decode[i] := pixels(n, i - margin);
        i := i + 1;
      }
      if upsampling {
        ResampleHorizontalUpsample(contributors, coefficients, decode, margin, output, weights, line);
      } else {
        ResampleHorizontalDownsample(contributors, coefficients, decode, margin, output, weights, line);
      }
    }
  }
}
