/** The buffer loops of src/stb/stb_image_resize.h: vertical resampling over a ring of scanlines. */
module Resampler {
  import opened SampleRanges
  import opened Coefficients
  import opened LineResampler
  import opened RingBuffer

  /** A row stored to the output image. */
  datatype Row = Row(y: int, pixels: seq<real>)

  ghost function RowOf(g: (int, int) -> real, width: nat, k: int): Row {
    Row(k, seq(width, x => g(k, x)))
  }

  /** The rows of `g` in [0, height) below `k`, each once and in order. */
  ghost function RowsBelow(g: (int, int) -> real, width: nat, height: nat, k: int): seq<Row>
    decreases k
  {
    if k <= 0 then []
    else RowsBelow(g, width, height, k - 1) + (if k <= height then [RowOf(g, width, k - 1)] else [])
  }

  class Info {
    const f: Filter
    const scale: real
    const shift: real
    const inputH: nat
    const outputH: nat
    const line: Line
    const ring: Ring
    /** The encode buffer when upsampling, the horizontal buffer when downsampling. */
    const buffer: array<real>
    const contributors: array<Contributors>
    const coefficients: array2<real>
    ghost const weights: (int, int) -> real
    var output: seq<Row>

    constructor (f: Filter, scale: real, shift: real, inputH: nat, outputH: nat, line: Line, ring: Ring,
                 buffer: array<real>,
                 contributors: array<Contributors>, coefficients: array2<real>, ghost weights: (int, int) -> real)
      ensures this.f == f && this.scale == scale && this.shift == shift && this.inputH == inputH
      ensures this.outputH == outputH
      ensures this.line == line && this.ring == ring && this.buffer == buffer && output == []
      ensures this.contributors == contributors && this.coefficients == coefficients && this.weights == weights
    {
      this.f, this.scale, this.shift, this.inputH, this.outputH := f, scale, shift, inputH, outputH;
      this.line, this.ring, this.buffer := line, ring, buffer;
      this.contributors, this.coefficients, this.weights := contributors, coefficients, weights;
      output := [];
    }

    function Margin(): int
      requires scale > 0.0
    {
      FilterPixelMargin(f, scale)
    }

    function RangeOf(y: int): Range
      requires scale > 0.0
    {
      SampleRange(f, scale, shift, y)
    }

    ghost predicate Valid()
      reads ring, line.contributors, line.coefficients, contributors, coefficients
    {
      && scale > 0.0
      && ring.Valid() && line.Valid()
      && line.width == ring.length == buffer.Length
      && |ring.entries| == RingBufferEntries(f, scale)
      && buffer !in ring.entries && buffer != line.decode && line.decode !in ring.entries
      && Holds(contributors, coefficients, weights)
    }

    // ----- Upsampling -----

    /** The tables are for this enlargement: each output row takes from its sample range only. */
    ghost predicate ForUpsampling()
      reads contributors
    {
      && Upsampling(scale)
      && contributors.Length == outputH
      && forall y :: 0 <= y < outputH ==>
           RangeOf(y).first <= contributors[y].n0 <= contributors[y].n1 <= RangeOf(y).last
    }

    /** Pixel `x` of output row `y`, computed from scratch. */
    ghost function Upsampled(): (int, int) -> real
      requires scale > 0.0
    {
      (y, x) => Gathered(weights, Column(x), y, RangeOf(y).first, RangeOf(y).last + 1)
    }

    ghost function Scanlines(): (int, int) -> real {
      (k, x) => line.Scanline(k, x)
    }

    /** Column `x` of the resampled lines. */
    ghost function Column(x: int): int -> real {
      k => line.Scanline(k, x)
    }

    /** Decodes line `n` and resamples it into a new entry of the ring. */
    method DecodeAndResampleUpsample(n: int)
      requires Valid() && ring.Holds(Scanlines())
      requires !ring.Empty() ==> n == ring.lastScanline + 1 && n - ring.firstScanline < |ring.entries|
      modifies ring, ring.entries, line.decode
      ensures Valid() && ring.Holds(Scanlines())
      ensures !ring.Empty() && ring.lastScanline == n
      ensures ring.firstScanline == if old(ring.Empty()) then n else old(ring.firstScanline)
    {
      hide EffectiveWeight;
      var entry := ring.AddEmptyEntry(n, Scanlines());
      line.DecodeAndResample(n, entry);
      forall k, x | ring.firstScanline <= k <= n && 0 <= x < ring.length
        ensures ring.entries[ring.Slot(k)][x] == Scanlines()(k, x)
      {
        if k != n { assert ring.entries[ring.Slot(k)] != entry; }
      }
    }

    method ResampleVerticalUpsample(y: nat)
      requires Valid() && ForUpsampling() && y < outputH
      requires !ring.Empty() && ring.Holds(Scanlines())
      requires ring.firstScanline <= RangeOf(y).first && RangeOf(y).last <= ring.lastScanline
      modifies this, buffer
      ensures output == old(output) + [RowOf(Upsampled(), buffer.Length, y)]
      ensures Valid() && ring.Holds(Scanlines())
    {
      hide SampleRange, RingBufferEntries, FilterPixelWidth, Ring.Slot, EffectiveWeight, Upsampled, Gathered;
      Clear(buffer);
      GatherRows(y, contributors[y].n0, contributors[y].n1);
      forall x | 0 <= x < buffer.Length
        ensures buffer[x] == Upsampled()(y, x)
      {
        UpsampledAt(y, x);
      }
      output := output + [Row(y, buffer[..])];
      assert buffer[..] == RowOf(Upsampled(), buffer.Length, y).pixels;
    }

    /** Adds the weighted lines [n0, n1] of the ring to the cleared buffer. */
    method GatherRows(y: nat, n0: int, n1: int)
      requires ring.Valid() && !ring.Empty() && ring.Holds(Scanlines()) && buffer !in ring.entries
      requires buffer.Length == ring.length
      requires Holds(contributors, coefficients, weights) && y < contributors.Length
      requires contributors[y] == Contributors(n0, n1) && ring.firstScanline <= n0 <= n1 <= ring.lastScanline
      requires forall x :: 0 <= x < buffer.Length ==> buffer[x] == 0.0
      modifies buffer
      ensures forall x :: 0 <= x < buffer.Length ==> buffer[x] == Gathered(weights, Column(x), y, n0, n1 + 1)
      ensures ring.Holds(Scanlines())
    {
      hide Ring.Slot, EffectiveWeight, Gathered;
      forall x { GatheredEmpty(weights, Column(x), y, n0); }
      var k := n0;
      while k <= n1
        invariant n0 <= k <= n1 + 1 && ring.Holds(Scanlines())
        invariant forall x :: 0 <= x < buffer.Length ==> buffer[x] == Gathered(weights, Column(x), y, n0, k)
      {
        var coefficient := coefficients[y, k - n0];
        WeightAt(contributors, coefficients, weights, y, k);
        var entry := ring.entries[ring.Slot(k)];
        assert forall x :: 0 <= x < buffer.Length ==> entry[x] == Scanlines()(k, x) == Column(x)(k);
        AddScaled(buffer, entry, coefficient);
        forall x { GatheredStep(weights, Column(x), y, n0, k); }
        k := k + 1;
      }
    }

    lemma UpsampledAt(y: nat, x: int)
      requires Valid() && ForUpsampling() && y < outputH
      ensures Upsampled()(y, x) == Gathered(weights, Column(x), y, contributors[y].n0, contributors[y].n1 + 1)
    {
      hide SampleRange, RingBufferEntries, FilterPixelWidth, Gathered;
      GatheredInRange(contributors, coefficients, weights, Column(x), y, RangeOf(y).first, RangeOf(y).last + 1);
    }

    /** Makes the ring hold exactly the lines of a range: drops what is no longer needed, then
        resamples the lines that are missing. */
    method LoadRange(inFirst: int, inLast: int)
      requires Valid() && ring.Holds(Scanlines())
      requires inFirst <= inLast && inLast - inFirst + 1 < |ring.entries|
      requires !ring.Empty() ==> ring.firstScanline <= inFirst && ring.lastScanline <= inLast
      modifies ring, ring.entries, line.decode
      ensures Valid() && ring.Holds(Scanlines())
      ensures !ring.Empty() && ring.firstScanline == inFirst && ring.lastScanline == inLast
    {
      hide RingBufferEntries, EffectiveWeight, Ring.Slot, Scanlines, Holds;
      if !ring.Empty() {
        while inFirst > ring.firstScanline
          invariant Valid() && ring.Holds(Scanlines()) && !ring.Empty()
          invariant ring.firstScanline <= inFirst && ring.lastScanline <= inLast
          decreases inFirst - ring.firstScanline
        {
          ring.PopFirst(Scanlines());
          if ring.Empty() { break; }
        }
      }
      if ring.Empty() {
        DecodeAndResampleUpsample(inFirst);
      }
      while inLast > ring.lastScanline
        invariant Valid() && ring.Holds(Scanlines()) && !ring.Empty()
        invariant ring.firstScanline == inFirst && ring.lastScanline <= inLast
        decreases inLast - ring.lastScanline
      {
        DecodeAndResampleUpsample(ring.lastScanline + 1);
      }
    }

    /** Writes every output row, in order: what the ring holds is always what recomputing would give. */
    method BufferLoopUpsample()
      requires Valid() && ForUpsampling() && ring.Empty() && output == []
      modifies this, ring, ring.entries, line.decode, buffer
      ensures output == RowsBelow(Upsampled(), buffer.Length, outputH, outputH)
    {
      hide SampleRange, EffectiveWeight, Ring.Slot, Scanlines, Upsampled, Holds, FilterPixelWidth;
      var y := 0;
      while y < outputH
        invariant 0 <= y <= outputH && Valid() && ForUpsampling() && ring.Holds(Scanlines())
        invariant output == RowsBelow(Upsampled(), buffer.Length, outputH, y)
        invariant ring.Empty() <==> y == 0
        invariant y > 0 ==> ring.firstScanline == RangeOf(y - 1).first && ring.lastScanline == RangeOf(y - 1).last
      {
        RangesAdvance(f, scale, shift, y - 1);
        RangesAdvance(f, scale, shift, y);
        RangeFits(f, scale, shift, y);
        LoadRange(RangeOf(y).first, RangeOf(y).last);
        ResampleVerticalUpsample(y);
        y := y + 1;
      }
    }

    // ----- Downsampling -----

    /** The tables are for this reduction: each input line adds to output rows in its sample range
        only, and the lines reach from before the first output row to behind the last. */
    ghost predicate ForDownsampling()
      reads contributors
    {
      && 0.0 < scale <= 1.0
      && outputH > 0
      && contributors.Length == inputH + 2 * Margin()
      && (forall j :: 0 <= j < contributors.Length ==> var r := RangeOf(j - Margin());
            var c := contributors[j]; 0 <= c.n0 && r.first <= c.n0 && c.n1 < outputH && c.n1 <= r.last)
      && contributors.Length > 0
      && RangeOf(-Margin()).first <= 0
      && RangeOf(inputH + Margin() - 1).last >= outputH - 1
    }

    /** Pixel `x` of output row `k` once the lines of the first `n` groups have been added. */
    ghost function Accumulated(n: int): (int, int) -> real
      requires scale > 0.0
    {
      (k, x) => Scattered(weights, Column(x), Margin(), k, n)
    }

    ghost function Downsampled(): (int, int) -> real
      requires scale > 0.0
    {
      Accumulated(inputH + 2 * Margin())
    }

    lemma AccumulateOne(j: int, k: int, x: int)
      requires scale > 0.0 && j >= 0
      ensures Accumulated(j + 1)(k, x) == Accumulated(j)(k, x) + line.Scanline(j - Margin(), x) * weights(j, k)
    {}

    lemma OutsideContributors(j: nat, k: int)
      requires Holds(contributors, coefficients, weights) && j < contributors.Length
      requires !(contributors[j].n0 <= k <= contributors[j].n1)
      ensures weights(j, k) == 0.0
    {
      assert EffectiveWeight(contributors, coefficients, j, k) == weights(j, k);
    }

    lemma AccumulateRow(j: nat, source: int -> real, column: int -> real)
      requires scale > 0.0 && Holds(contributors, coefficients, weights) && j < contributors.Length
      requires forall x :: source(x) == line.Scanline(j - Margin(), x)
      requires forall k :: column(k) == weights(j, k)
      ensures AddsRows(Accumulated(j), Accumulated(j + 1), contributors[j].n0, contributors[j].n1, source, column)
    {
      hide Accumulated, EffectiveWeight, Holds;
      forall k, x
        ensures Accumulated(j + 1)(k, x) == Accumulated(j)(k, x) + source(x) * column(k)
        ensures !(contributors[j].n0 <= k <= contributors[j].n1) ==> Accumulated(j + 1)(k, x) == Accumulated(j)(k, x)
      {
        AccumulateOne(j, k, x);
        if !(contributors[j].n0 <= k <= contributors[j].n1) { OutsideContributors(j, k); }
      }
    }

    /** Adds line `y` to the rows it contributes to. */
    method ResampleVerticalDownsample(y: int)
      requires Valid() && ForDownsampling() && 0 <= y + Margin() < contributors.Length
      requires !ring.Empty() && ring.Holds(Accumulated(y + Margin()))
      requires ring.firstScanline <= RangeOf(y).first && RangeOf(y).last <= ring.lastScanline
      requires forall x :: 0 <= x < buffer.Length ==> buffer[x] == line.Scanline(y, x)
      modifies ring.entries
      ensures Valid() && ring.Holds(Accumulated(y + Margin() + 1))
    {
      hide SampleRange, RingBufferEntries, FilterPixelWidth, Ring.Slot, Accumulated, FilterPixelMargin, EffectiveWeight,
           Holds,
           AddsRows;
      var j := y + Margin();
      var n0, n1 := contributors[j].n0, contributors[j].n1;
      assert j - Margin() == y && RangeOf(y).first <= n0 && n1 <= RangeOf(y).last;
      ghost var source := x => line.Scanline(y, x);
      ghost var column := k => weights(j, k);
      AccumulateRow(j, source, column);
      AddToRows(j, n0, n1, Accumulated(j), Accumulated(j + 1), source, column);
    }

    method AddToRows(j: nat, n0: int, n1: int, ghost before: (int, int) -> real, ghost after: (int, int) -> real,
                     ghost source: int -> real, ghost column: int -> real)
      requires ring.Valid() && !ring.Empty() && ring.Holds(before) && buffer !in ring.entries
      requires buffer.Length == ring.length
      requires Holds(contributors, coefficients, weights) && j < contributors.Length
      requires contributors[j] == Contributors(n0, n1)
      requires ring.firstScanline <= n0 && n1 <= ring.lastScanline
      requires forall x :: 0 <= x < buffer.Length ==> buffer[x] == source(x)
      requires AddsRows(before, after, n0, n1, source, column) && forall k :: column(k) == weights(j, k)
      modifies ring.entries
      ensures ring.Holds(after)
    {
      hide Ring.Slot, EffectiveWeight, Ring.Holds, Mixed, Added, AddsRows;
      MixedRows(before, after, n0, n1, source, column);
      SameRows(ring, before, Mixed(before, after, n0, n0));
      var k := n0;
      while k <= n1
        invariant n0 <= k && (k > n0 ==> k <= n1 + 1)
        invariant ring.Valid() && ring.Holds(Mixed(before, after, n0, k))
        invariant forall x :: 0 <= x < buffer.Length ==> buffer[x] == source(x)
      {
        var coefficient := coefficients[j, k - n0];
        WeightAt(contributors, coefficients, weights, j, k);
        assert column(k) == coefficient;
        MixedStep(before, after, n0, n1, k, source, column);
        AddToRow(k, coefficient, Mixed(before, after, n0, k), source);
        SameRows(ring, Added(Mixed(before, after, n0, k), k, source, coefficient), Mixed(before, after, n0, k + 1));
        k := k + 1;
      }
      SameRows(ring, Mixed(before, after, n0, k), after);
    }

    method AddToRow(k: int, coefficient: real, ghost g: (int, int) -> real, ghost source: int -> real)
      requires ring.Valid() && !ring.Empty() && ring.Holds(g) && buffer !in ring.entries && buffer.Length == ring.length
      requires ring.firstScanline <= k <= ring.lastScanline
      requires forall x :: 0 <= x < buffer.Length ==> buffer[x] == source(x)
      modifies ring.entries
      ensures ring.Holds(Added(g, k, source, coefficient))
    {
      var entry := ring.entries[ring.Slot(k)];
      assert forall x :: 0 <= x < ring.length ==> entry[x] == g(k, x);
      AddScaled(entry, buffer, coefficient);
      forall r, x | ring.firstScanline <= r <= ring.lastScanline && 0 <= x < ring.length && r != k
        ensures ring.entries[ring.Slot(r)][x] == g(r, x)
      {
        assert ring.entries[ring.Slot(r)] != entry;
      }
    }

    /** Stores the first line of the ring, if it is an output row. */
    method EncodeFirst(ghost g: (int, int) -> real)
      requires ring.Valid() && !ring.Empty() && ring.Holds(g)
      modifies this
      ensures output == old(output) +
        (if 0 <= ring.firstScanline < outputH then [RowOf(g, ring.length, ring.firstScanline)] else [])
    {
      if ring.firstScanline >= 0 && ring.firstScanline < outputH {
        var entry := ring.entries[ring.Slot(ring.firstScanline)];
        assert ring.Slot(ring.firstScanline) == ring.beginIndex;
        output := output + [Row(ring.firstScanline, entry[..])];
        assert entry[..] == RowOf(g, ring.length, ring.firstScanline).pixels;
      }
    }

    /** Takes the lines before `firstNecessary` off the ring and stores those that are output rows.
        `g` is what the ring holds; those lines are complete: they are lines of `full`. */
    method EmptyRingBuffer(firstNecessary: int, ghost g: (int, int) -> real, ghost full: (int, int) -> real)
      requires ring.Valid() && ring.Holds(g)
      requires forall k, x :: !ring.Empty() && ring.firstScanline <= k < firstNecessary ==> g(k, x) == full(k, x)
      requires !ring.Empty() ==> output == RowsBelow(full, ring.length, outputH, ring.firstScanline)
      modifies this, ring
      ensures ring.Valid() && ring.Holds(g)
      ensures old(ring.Empty()) ==> output == old(output)
      ensures ring.Empty() <==> old(ring.Empty()) || firstNecessary > old(ring.lastScanline)
      ensures !ring.Empty() ==>
        && ring.lastScanline == old(ring.lastScanline)
        && ring.firstScanline == Max(firstNecessary, old(ring.firstScanline))
        && output == RowsBelow(full, ring.length, outputH, ring.firstScanline)
      ensures ring.Empty() && !old(ring.Empty()) ==>
        output == RowsBelow(full, ring.length, outputH, old(ring.lastScanline) + 1)
    {
      hide Ring.Slot, Ring.Holds, RowOf;
      if !ring.Empty() {
        ghost var last := ring.lastScanline;
        while firstNecessary > ring.firstScanline
          invariant ring.Valid() && ring.Holds(g) && !ring.Empty()
          invariant old(ring.firstScanline) <= ring.firstScanline <= Max(firstNecessary, old(ring.firstScanline))
          invariant ring.lastScanline == last
          invariant output == RowsBelow(full, ring.length, outputH, ring.firstScanline)
          decreases firstNecessary - ring.firstScanline
        {
          ghost var k := ring.firstScanline;
          SameRow(g, full, ring.length, k);
          EncodeFirst(g);
          ring.PopFirst(g);
          if ring.Empty() { break; }
        }
      }
    }

    /** Decodes line `y` and resamples it into the horizontal buffer. */
    method DecodeAndResampleDownsample(y: int)
      requires Valid()
      modifies buffer, line.decode
      ensures forall x :: 0 <= x < buffer.Length ==> buffer[x] == line.Scanline(y, x)
    {
      Clear(buffer);
      line.DecodeAndResample(y, buffer);
    }

    /** Line `y` reaches no output row. */
    predicate Skipped(y: int)
      requires scale > 0.0
    {
      RangeOf(y).last < 0 || RangeOf(y).first >= outputH
    }

    /** Before line `y` is added: the rows of the range before are in the ring and the rows before
        those are stored; or no line has reached the output yet. */
    ghost predicate Before(y: int)
      requires scale > 0.0
      reads this, ring
    {
      if ring.Empty() then
        output == [] && (y == -Margin() || RangeOf(y - 1).last < 0)
      else
        && y > -Margin() && RangeOf(y - 1).last >= 0
        && ring.firstScanline == RangeOf(y - 1).first && ring.lastScanline == RangeOf(y - 1).last
        && output == RowsBelow(Downsampled(), ring.length, outputH, ring.firstScanline)
    }

    /** Gives every row of the range of line `y` an entry; new entries start at zero, which is right
        because no line has added to those rows. */
    method AddRows(y: int)
      requires Valid() && ForDownsampling() && 0 <= y + Margin() < contributors.Length
      requires ring.Holds(Accumulated(y + Margin()))
      requires y > -Margin() ==>
        || RangeOf(y - 1).last < (if ring.Empty() then RangeOf(y).first else ring.lastScanline + 1)
        || RangeOf(y - 1).last < 0
      requires !ring.Empty() ==> ring.firstScanline == RangeOf(y).first && ring.lastScanline <= RangeOf(y).last
      modifies ring, ring.entries
      ensures Valid() && ring.Holds(Accumulated(y + Margin()))
      ensures !ring.Empty() && ring.firstScanline == RangeOf(y).first && ring.lastScanline == RangeOf(y).last
    {
      hide SampleRange, FilterPixelMargin, FilterPixelWidth, Accumulated, EffectiveWeight, Ring.Slot, Ring.Holds, Holds;
      RangesAdvance(f, scale, shift, y);
      RangeFits(f, scale, shift, y);
      if ring.Empty() {
        AddRow(y, RangeOf(y).first);
      }
      while RangeOf(y).last > ring.lastScanline
        invariant Valid() && ForDownsampling() && ring.Holds(Accumulated(y + Margin()))
        invariant !ring.Empty() && ring.firstScanline == RangeOf(y).first && ring.lastScanline <= RangeOf(y).last
        invariant y > -Margin() ==> RangeOf(y - 1).last <= ring.lastScanline || RangeOf(y - 1).last < 0
        decreases RangeOf(y).last - ring.lastScanline
      {
        AddRow(y, ring.lastScanline + 1);
      }
    }

    method AddRow(y: int, n: int)
      requires Valid() && ForDownsampling() && 0 <= y + Margin() < contributors.Length
      requires ring.Holds(Accumulated(y + Margin()))
      requires y > -Margin() ==> RangeOf(y - 1).last < n || n < 0
      requires !ring.Empty() ==> n == ring.lastScanline + 1 && n - ring.firstScanline < |ring.entries|
      modifies ring, ring.entries
      ensures Valid() && ring.Holds(Accumulated(y + Margin()))
      ensures !ring.Empty() && ring.lastScanline == n
      ensures ring.firstScanline == if old(ring.Empty()) then n else old(ring.firstScanline)
    {
      hide SampleRange, FilterPixelMargin, FilterPixelWidth, Accumulated, EffectiveWeight, Ring.Slot, Ring.Holds;
      ghost var g := Accumulated(y + Margin());
      forall x
        ensures g(n, x) == 0.0
      {
        NothingYet(y + Margin(), n, x);
      }
      var entry := ring.AddEmptyEntry(n, g);
      SameRows(ring, (k, x) => if k == n then 0.0 else g(k, x), g);
    }

    /** One round of the loop, for a line that reaches the output. */
    method DownsampleLine(y: int)
      requires Valid() && ForDownsampling() && 0 <= y + Margin() < contributors.Length
      requires !Skipped(y) && Before(y) && ring.Holds(Accumulated(y + Margin()))
      modifies this, ring, ring.entries, line.decode, buffer
      ensures Valid() && ring.Holds(Accumulated(y + Margin() + 1))
      ensures !ring.Empty() && Before(y + 1)
    {
      hide SampleRange, FilterPixelMargin, FilterPixelWidth, Accumulated, EffectiveWeight, Ring.Slot, Ring.Holds, Holds,
           RowsBelow;
      RangesAdvance(f, scale, shift, y - 1);
      RangesAdvance(f, scale, shift, y);
      forall k, x | k < RangeOf(y).first
        ensures Accumulated(y + Margin())(k, x) == Downsampled()(k, x)
      {
        NothingMore(y + Margin(), k, x);
      }
      RowsBelowZero(Downsampled(), ring.length, outputH);
      EmptyRingBuffer(RangeOf(y).first, Accumulated(y + Margin()), Downsampled());
      DecodeAndResampleDownsample(y);
      AddRows(y);
      ResampleVerticalDownsample(y);
    }

    /** Lines that are skipped would have added nothing. */
    lemma SkippedAddsNothing(y: int)
      requires Valid() && ForDownsampling() && 0 <= y + Margin() < contributors.Length && Skipped(y)
      ensures var before, after := Accumulated(y + Margin()), Accumulated(y + Margin() + 1);
        forall k, x :: before(k, x) == after(k, x)
    {
      hide SampleRange, FilterPixelMargin, FilterPixelWidth, Accumulated, EffectiveWeight, Ring.Slot;
      var before, after := Accumulated(y + Margin()), Accumulated(y + Margin() + 1);
      forall k, x
        ensures before(k, x) == after(k, x)
      {
        AccumulateOne(y + Margin(), k, x);
        if weights(y + Margin(), k) != 0.0 { WeightInRange(y + Margin(), k); }
      }
    }

    /** Between lines: nothing stored yet, or at line `y`, or past the last line that reaches the output. */
    ghost predicate Between(y: int)
      requires scale > 0.0
      reads this, ring
    {
      Before(y) || (
        && !ring.Empty() && y > -Margin() && RangeOf(y - 1).first >= outputH
        && ring.lastScanline >= outputH - 1
        && output == RowsBelow(Downsampled(), ring.length, outputH, ring.firstScanline))
    }

    lemma SkipKeeps(y: int)
      requires Valid() && ForDownsampling() && 0 <= y + Margin() < contributors.Length && Skipped(y) && Between(y)
      ensures Between(y + 1)
    {
      hide SampleRange, FilterPixelMargin, FilterPixelWidth, Accumulated, EffectiveWeight, Ring.Slot, Holds, RowsBelow;
      RangesAdvance(f, scale, shift, y - 1);
      RangesAdvance(f, scale, shift, y);
    }

    /** Writes every output row exactly once, in order, each with everything all lines add to it. */
    method BufferLoopDownsample()
      requires Valid() && ForDownsampling() && ring.Empty() && output == []
      modifies this, ring, ring.entries, line.decode, buffer
      ensures output == RowsBelow(Downsampled(), buffer.Length, outputH, outputH)
    {
      hide SampleRange, FilterPixelMargin, FilterPixelWidth, Accumulated, EffectiveWeight, Ring.Slot, Ring.Holds, Holds;
      var maxY := inputH + Margin();
      var y := -Margin();
      EmptyHolds(ring, Accumulated(0));
      while y < maxY
        invariant -Margin() <= y <= maxY && Valid() && ForDownsampling()
        invariant ring.Holds(Accumulated(y + Margin()))
        invariant Between(y)
      {
        if Skipped(y) {
          SkippedAddsNothing(y);
          SameRows(ring, Accumulated(y + Margin()), Accumulated(y + Margin() + 1));
          SkipKeeps(y);
          y := y + 1;
          continue;
        }
        RangesAdvance(f, scale, shift, y - 1);
        DownsampleLine(y);
        y := y + 1;
      }
      EmptyRingBuffer(outputH, Downsampled(), Downsampled());
      RowsAbove(Downsampled(), buffer.Length, outputH);
    }

    /** What the whole image is resampled to. */
    ghost function Rows(): seq<Row>
      requires scale > 0.0
    {
      RowsBelow(if Upsampling(scale) then Upsampled() else Downsampled(), buffer.Length, outputH, outputH)
    }

    method BufferLoop()
      requires Valid() && ring.Empty() && output == []
      requires if Upsampling(scale) then ForUpsampling() else ForDownsampling()
      modifies this, ring, ring.entries, line.decode, buffer
      ensures output == Rows()
    {
      hide SampleRange, FilterPixelMargin, FilterPixelWidth, EffectiveWeight, Ring.Slot, Holds, Valid, ForUpsampling,
           ForDownsampling,
           RowsBelow;
      assert scale > 0.0 by { PositiveScale(); }
      if Upsampling(scale) {
        BufferLoopUpsample();
      } else {
        BufferLoopDownsample();
      }
    }

    lemma PositiveScale()
      requires Valid()
      ensures scale > 0.0
    {
      hide Holds, RingBufferEntries;
    }

    // ----- Which rows a line can reach -----

    lemma WeightInRange(j: nat, k: int)
      requires Holds(contributors, coefficients, weights) && ForDownsampling() && j < contributors.Length
      requires weights(j, k) != 0.0
      ensures RangeOf(j - Margin()).first <= k <= RangeOf(j - Margin()).last && 0 <= k < outputH
    {
      hide SampleRange, FilterPixelMargin;
      if !(contributors[j].n0 <= k <= contributors[j].n1) { OutsideContributors(j, k); }
    }

    /** Lines whose ranges end before row `k` have added nothing to it. */
    lemma {:induction false} NothingYet(n: nat, k: int, x: int)
      requires Holds(contributors, coefficients, weights) && ForDownsampling() && n <= contributors.Length
      requires n > 0 ==> RangeOf(n - 1 - Margin()).last < k || k < 0
      ensures Accumulated(n)(k, x) == 0.0
      decreases n
    {
      hide SampleRange, FilterPixelMargin;
      if n > 0 {
        hide Accumulated;
        AccumulateOne(n - 1, k, x);
        if weights(n - 1, k) != 0.0 { WeightInRange(n - 1, k); }
        RangesAdvance(f, scale, shift, n - 2 - Margin());
        NothingYet(n - 1, k, x);
      }
    }

    /** Once ranges start behind row `k` nothing is added to it any more. */
    lemma {:induction false} NothingMore(n: nat, k: int, x: int)
      requires Holds(contributors, coefficients, weights) && ForDownsampling() && n <= contributors.Length
      requires n < contributors.Length ==> k < RangeOf(n - Margin()).first
      ensures Accumulated(n)(k, x) == Downsampled()(k, x)
      decreases contributors.Length - n
    {
      hide SampleRange, FilterPixelMargin, Accumulated;
      if n < contributors.Length {
        AccumulateOne(n, k, x);
        if weights(n, k) != 0.0 { WeightInRange(n, k); }
        RangesAdvance(f, scale, shift, n - Margin());
        NothingMore(n + 1, k, x);
      }
    }
  }

  function Max(a: int, b: int): int { if a < b then b else a }

  lemma RowsBelowZero(g: (int, int) -> real, width: nat, height: nat)
    ensures forall k :: k <= 0 ==> RowsBelow(g, width, height, k) == []
  {}

  lemma RowsAbove(g: (int, int) -> real, width: nat, height: nat)
    ensures forall k :: k >= height ==> RowsBelow(g, width, height, k) == RowsBelow(g, width, height, height)
  {
    forall k | k >= height
      ensures RowsBelow(g, width, height, k) == RowsBelow(g, width, height, height)
    {
      NoRowsFrom(g, width, height, k);
    }
  }

  lemma {:induction false} NoRowsFrom(g: (int, int) -> real, width: nat, height: nat, k: int)
    requires k >= height
    ensures RowsBelow(g, width, height, k) == RowsBelow(g, width, height, height)
    decreases k
  {
    if k > height { NoRowsFrom(g, width, height, k - 1); }
  }

  /** Every row exactly once, in increasing order. */
  lemma {:induction false} RowsInOrder(g: (int, int) -> real, width: nat, height: nat, k: nat)
    requires k <= height
    ensures |RowsBelow(g, width, height, k)| == k
    ensures forall y :: 0 <= y < k ==> RowsBelow(g, width, height, k)[y] == RowOf(g, width, y)
  {
    if k > 0 { RowsInOrder(g, width, height, k - 1); }
  }

  lemma SameRow(g: (int, int) -> real, h: (int, int) -> real, width: nat, k: int)
    requires forall x :: g(k, x) == h(k, x)
    ensures RowOf(g, width, k) == RowOf(h, width, k)
  {}

  /** The rows [n0, k) of `after`, the others of `before`. */
  ghost function Mixed(before: (int, int) -> real, after: (int, int) -> real, n0: int, k: int): (int, int) -> real {
    (r, x) => if n0 <= r < k then after(r, x) else before(r, x)
  }

  /** `g` with a multiple of `source` added to row `k`. */
  ghost function Added(g: (int, int) -> real, k: int, source: int -> real, coefficient: real): (int, int) -> real {
    (r, x) => if r == k then g(r, x) + source(x) * coefficient else g(r, x)
  }

  /** Every row from n0 to n1 gains its multiple of the source, and no other row changes. */
  ghost predicate AddsRows(before: (int, int) -> real, after: (int, int) -> real, n0: int, n1: int,
                           source: int -> real, weights: int -> real)
  {
    && (forall k, x :: after(k, x) == before(k, x) + source(x) * weights(k))
    && (forall k, x :: !(n0 <= k <= n1) ==> after(k, x) == before(k, x))
  }

  lemma MixedStep(before: (int, int) -> real, after: (int, int) -> real, n0: int, n1: int, k: int,
                  source: int -> real, weights: int -> real)
    requires n0 <= k && AddsRows(before, after, n0, n1, source, weights)
    ensures forall r, x ::
      Added(Mixed(before, after, n0, k), k, source, weights(k))(r, x) == Mixed(before, after, n0, k + 1)(r, x)
  {}

  lemma MixedRows(before: (int, int) -> real, after: (int, int) -> real, n0: int, n1: int,
                  source: int -> real, weights: int -> real)
    requires AddsRows(before, after, n0, n1, source, weights)
    ensures forall r, x :: Mixed(before, after, n0, n0)(r, x) == before(r, x)
    ensures forall k, r, x :: k > n1 ==> Mixed(before, after, n0, k)(r, x) == after(r, x)
  {}

  lemma EmptyHolds(ring: Ring, g: (int, int) -> real)
    requires ring.Valid() && ring.Empty()
    ensures ring.Holds(g)
  {}

  lemma SameRows(ring: Ring, g: (int, int) -> real, h: (int, int) -> real)
    requires ring.Valid() && ring.Holds(g) && forall k, x :: g(k, x) == h(k, x)
    ensures ring.Holds(h)
  {
    hide Ring.Slot;
  }

  lemma WeightAt(contributors: array<Contributors>, coefficients: array2<real>, weights: (int, int) -> real, j: nat,
                 k: int)
    requires Holds(contributors, coefficients, weights) && j < contributors.Length
    requires contributors[j].n0 <= k <= contributors[j].n1
    ensures coefficients[j, k - contributors[j].n0] == weights(j, k)
  {
    assert EffectiveWeight(contributors, coefficients, j, k) == weights(j, k);
  }

  /** Adds a multiple of a row to another row. */
  method AddScaled(target: array<real>, source: array<real>, coefficient: real)
    requires target != source && target.Length == source.Length
    modifies target
    ensures forall x :: 0 <= x < target.Length ==> target[x] == old(target[x]) + source[x] * coefficient
  {
    var x := 0;
    while x < target.Length
      invariant 0 <= x <= target.Length
      invariant forall m :: 0 <= m < x ==> target[m] == old(target[m]) + source[m] * coefficient
      invariant forall m :: x <= m < target.Length ==> target[m] == old(target[m])
    {
      target[x] := target[x] + source[x] * coefficient;
      x := x + 1;
    }
  }
}
