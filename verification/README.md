# Verification models

Dafny models of six self-contained algorithms of the terminal and its tools, each proved against an independent
definition of what it is for. `dafny verify dfyconfig.toml` checks all of them.

**Decoding terminal text.** `Utf8` defines well-formed sequences by Table 3-7 of the Unicode Standard (section
3.9; the same as section 4 of RFC 3629) and two reference decoders: one replaces maximal subparts of a whole
text, the other reads byte by byte. `Utf8Properties` proves them equal and relates them to trimming. `Vt` (with
`Simd` and `Simdutf`) is the vector decoder that stops at ESC, `VtScalar` its scalar counterpart, `Utf8Dfa` the
table-driven decoder, and `TextStream` the stream that mixes them: its text does not depend on how the input is
sliced. The conversion library that the vector decoder calls is a function: it decodes all, or reports the first
error.

**Resampling images.** `SampleRanges` and `FilterProperties` hold the formulas and what they guarantee;
`Coefficients` and `CalculateFilters` fill, normalise and trim the coefficient tables in place; `LineResampler`
does a scanline; `RingBuffer` and `Resampler` are the two loops over the ring of scanlines, a cache when
enlarging and a window of accumulators when shrinking; `Resize` puts them together and proves the result to be
one weighted sum per pixel. `Placement` says where that takes each output sample from, in terms of the sizes and
the region. `LatticeSums` and `Totals` work out, in closed form, what the weights of each output sample of a
shrink add up to before they are normalised. Arithmetic is exact. Pixels of the source are a function of their
coordinates, which includes what edge handling makes of coordinates outside of the image.

**Framed records.** `NativeWire` is the encoder and the validating reader over a stream with short reads.

**Font tables.** `Packing`, `ScaleGroups` and `CollectEntries` are the passes that assign Nerd Font codepoints
and constraints; `Lut` builds the deduplicated three-stage table from them.

**Display width.** `CodepointWidth` looks a codepoint up in the ranges of `WidthTables`, a vector at a time.

**A client's output.** `BufferedChild` is the buffer that two reader threads fill and a consumer empties: the
sections under the lock are methods of a class, and their interleavings a state machine.

Where the models depart from what one may expect, it is because the code does:

- `ascii` of the decoder says that no byte of 0x80 or more precedes the first ESC or the end of the input, not
  the end of what was consumed: for the single byte 0xE2 nothing is consumed, and `ascii` is false
  (`Vt.AsciiOfNothing`; `Vt.AsciiOfConsumed` says when the two agree).
- The source asserts of a shrink that the weights of a sample total between 0.9 and 1.1. In exact arithmetic
  that holds for the box, where it is 1, and for the three cubic filters. It does not hold for the triangle:
  seven lines on five samples give the middle one 55/49 (`Totals.TriangleExceeds`). `Totals.TriangleAssertion`
  says at which scales it can fail. No filter has a total below 3/4, so that the division by it is always
  possible.
- A font's codepoint map that is empty counts as none in `Packing`, so that no codepoint is passed over; a start
  of 0 counts as missing.
- Two same-named patch sets that overlap may be packed, with the later assignment in the table; collecting the
  entries then fails.
- The comment on the 16-bit width tables speaks of doing all fast comparisons in one go. The lane-local test of
  the hit relies on it: below 8 lanes it is wrong (`CodepointWidth.TooFewLanes`).
- An `OSError` of a failed `os.read` carries the text of its number, so an empty read in `BufferedChild` does
  mean the end. It depends on that: a failure with an empty message would pass for none
  (`EmptyMessageHidesLoss`).

## Model

| member | source | states |
|---|---|---|
| `Utf8.MatchesIsInitial` | src/simd/vt.cpp:28-93 | the lead and continuation intervals the decoders test, byte by byte, accept exactly the initial subsequences of the well-formed sequences of Table 3-7 |
| `Utf8.EncodeInverts` | src/simd/vt.cpp:158-199 | the scalar of the encoding of v is v, for every Unicode scalar value |
| `Utf8.ScalarInverts` | src/simd/vt.cpp:158-199 | a well-formed sequence has a scalar value, and is the only encoding of it |
| `Utf8.SubpartIsMaximal` | src/simd/vt.cpp:28-93 | n is the length the decoders use if and only if it is a maximal subpart as the Unicode Standard defines it: the longest initial subsequence, or else one byte |
| `Utf8.DecodeIsRun` | src/simd/vt.cpp:158-199 | replacing maximal subparts of a whole text equals reading it one byte at a time and flushing at the end, from every held prefix |
| `Utf8Properties.DecodeEmitsScalarValues` | src/simd/vt.cpp:158-199 | decoding any bytes gives Unicode scalar values only, and never more of them than bytes |
| `Utf8Properties.DecodeInvertsEncode` | src/simd/vt.cpp:158-199 | decoding the encoding of any sequence of scalar values returns it |
| `Utf8Properties.TrimIsExact` | src/simd/vt.cpp:95-149 | for every cut before the end: it is where trimming cuts if and only if what follows is a nonempty proper initial part of some well-formed sequence; then that is at most 3 bytes and starts at the last byte that is no continuation |
| `Utf8Properties.TrimAfterAscii` | src/simd/vt.cpp:282-284 | trimming behind an ASCII prefix is trimming the whole: base + Trim(input[base..]) = Trim(input) |
| `Utf8Properties.RunIsDecodeOfTrimmed` | src/simd/vt.cpp:272-284 | reading byte by byte emits the decoding of the trimmed input and holds exactly the trimmed tail |
| `Utf8Properties.WellFormedIsSequence` | src/simd/vt.cpp:28-93 | a sequence is well-formed if and only if its bytes are those of a scalar value, computed from the number as in section 3 of RFC 3629, and then it stands for that number |
| `Utf8Properties.DecodeInNumbers` | src/simd/vt.cpp:158-199 | what the text starts with, its maximal subpart, decodes to the number it is the sequence of, or else to 0xFFFD; the rest follows |
| `Utf8Properties.LoneByte` | src/simd/vt.cpp:158-199 | [0xFF] decodes to [0xFFFD] |
| `Simd.IndexOfChunk` | src/simd/index_of.h:24-44 | the first lane equal to the needle, or none if no lane is |
| `Simd.IndexOf` | src/simd/index_of.h:46-90 | the first index of the needle, or the length: for every lane count, whatever the remainder of the length |
| `Simdutf.SplitAtError` | src/simd/vt.cpp:166-188 | at the first ill-formed position decoding splits in two; the library's count of the valid prefix is the number of its scalars, and what starts the rest is not a complete sequence |
| `Simdutf.ConvertWithErrors` | src/simd/vt.cpp:166-175 | converts everything, or reports the start of the first ill-formed sequence with the prefix written; touches nothing outside the room for the input |
| `Vt.MaximalSubpart` | src/simd/vt.cpp:28-93 | 0 for no input, otherwise the length of the maximal subpart of the definition |
| `Vt.TrimValidPartialUTF8` | src/simd/vt.cpp:95-149 | computes the exact trimmed length |
| `Vt.DecodeUTF8` | src/simd/vt.cpp:158-199 | on every byte string the loop terminates, writes the reference decoding and returns its length, at most that of the input |
| `Vt.ErrorStep` | src/simd/vt.cpp:176-192 | at an error the reference decoding is the valid prefix, as long as the library counts it, one U+FFFD, and the decoding behind the maximal subpart, which is never a complete sequence |
| `Vt.DecodeToError` | src/simd/vt.cpp:164-192 | one turn of the loop: progress of at least one byte, the written part is what the reference decoding starts with, and the rest of the input decodes to the rest of it |
| `Vt.DecodersAgree` | src/simd/vt.cpp:308-382 | the requirements of decoding until ESC determine the consumed length, the flag and the text: any two decoders that meet them agree |
| `Vt.AsciiOfConsumed` | src/simd/vt.cpp:308-382 | `ascii` says of the consumed bytes, too, whether they are all ASCII if and only if there is an ESC, or no incomplete tail, or a byte of 0x80 or more before that tail |
| `Vt.AsciiOfNothing` | src/simd/vt.cpp:308-382 | an input for which they differ: a lone lead byte |
| `Vt.StopsAtEsc` | src/simd/vt.cpp:308-382 | nothing before the place where decoding stops is 0x1B, and if there is one anywhere it stops right there |
| `Vt.WidenAsciiStore` | src/simd/vt.cpp:203-225 | the four quarter stores write every lane once, in order, and nothing else |
| `Vt.DecodeAfterAscii` | src/simd/vt.cpp:286-306 | widening whole vectors may pass the ASCII prefix but never the input length, and in the end every code point up to the returned count is right |
| `Vt.DecodeNonAsciiUntilControlSeq` | src/simd/vt.cpp:227-285 | stops at the first ESC or before an incomplete tail, and completes the decoding of the whole prefix behind the ASCII part already stored |
| `Vt.DecodeUTF8UntilControlSeq` | src/simd/vt.cpp:323-382 | for every lane count: consumes up to the first ESC (0x1B) or the trimmed length; `ascii` if and only if no byte of 0x80 or more comes before the first ESC or the end of the input; the text (buffer, or raw bytes if `ascii`) is the reference decoding of the consumed bytes; an ASCII answer leaves the buffer alone |
| `VtScalar.DecodeUTF8UntilControlSeqScalar` | src/simd/vt.zig:52-168 | the scalar decoder, with or without vectors for ASCII, meets the same requirements, so it agrees with the vector decoder on every input |
| `VtScalar.ReadSequence` | src/simd/vt.zig:97-160 | one sequence: its maximal subpart, its scalar or U+FFFD, and whether the input cut it off |
| `Utf8Dfa.TransitionIsStep` | src/terminal/UTF8Decoder.zig:17-84 | each transition of the table: accepting exactly if the byte completes the held bytes to a well-formed sequence, rejecting exactly if no sequence starts with them, and otherwise in the state of the longer held bytes |
| `Utf8Dfa.UTF8Decoder.Next` | src/terminal/UTF8Decoder.zig:56-85 | one call emits and holds what the step says; a byte is handed back only after U+FFFD for a broken sequence, with nothing held, so twice is enough |
| `TextStream.FeedAppend` | src/terminal/stream.zig:831-930 | feeding two slices in turn is feeding their concatenation |
| `TextStream.SlicingIsInvisible` | src/terminal/stream.zig:831-930 | for every stream and every way of slicing it the terminal gets the decoding of what precedes the first ESC, or of all but the incomplete tail, which alone is still held |
| `TextStream.ChunkingIsInvisible` | src/simd/vt.cpp:272-284 | an ESC-free stream decoded chunk by chunk, unconsumed bytes first, gives the decoding of whole[..Trim(whole)] and carries exactly whole[Trim(whole)..], however it is cut |
| `TextStream.Stream.NextSliceCapped` | src/terminal/stream.zig:868-930 | the mix of bulk decoding and byte-wise completion equals feeding the slice byte by byte, and returns the offset just behind the first ESC |
| `TextStream.Stream.NextSlice` | src/terminal/stream.zig:831-866 | a slice of any length, cut into pieces that fit the buffer, does too |
| `TextStream.Stream.NextUtf8` | src/terminal/stream.zig:1392-1418 | one byte through the table-driven decoder is one byte fed, ESC inside a broken sequence included |
| `SampleRanges.SampleRangeIsWindow` | src/stb/stb_image_resize.h:1009-1036 | both range formulas are one: the whole pixels whose centres lie within the support around the mapped centre |
| `SampleRanges.RangesAdvance` | src/stb/stb_image_resize.h:1009-1036 | for every positive scale and filter ranges are nonempty, their first and last pixels never decrease from one index to the next, and advance by at most one |
| `SampleRanges.RangeFits` | src/stb/stb_image_resize.h:883-907 | every range is nonempty, fits the coefficient width ceil(2 * support), and is shorter than the ring's number of entries |
| `SampleRanges.RangeCoversKernel` | src/stb/stb_image_resize.h:759-837 | where a kernel is not zero the pixel is in the range: a range loses no weight |
| `FilterProperties.EdgesAreReached` | src/stb/stb_image_resize.h:2165-2204 | for a source region inside [0, 1] the first input line's range starts at or before output 0 and the last one's ends at or after the last output |
| `FilterProperties.MarginSuffices` | src/stb/stb_image_resize.h:896-899 | no line beyond the filter margin contributes to any output: the margin is wide enough |
| `FilterProperties.GroupHasWeight` | src/stb/stb_image_resize.h:1169-1171 | every coefficient group of a shrink has a nonzero coefficient, so the loop that skips zeros stays in its group |
| `FilterProperties.WeightsSumToOne` | src/stb/stb_image_resize.h:1038-1077 | when enlarging, the unnormalised weights of each of the five filters add up to exactly 1 for every centre and scale (box edges included): the asserted total is 1 and never 0 |
| `Coefficients.CalculateCoefficientsUpsample` | src/stb/stb_image_resize.h:1038-1090 | restarting on a leading zero and dropping trailing ones, in place: the group still holds exactly the normalised weight function, inside the computed range, with nonzero first and last coefficients |
| `Coefficients.CalculateCoefficientsDownsample` | src/stb/stb_image_resize.h:1092-1124 | the same for a shrink, before normalisation |
| `Coefficients.ColumnTotal` | src/stb/stb_image_resize.h:1138-1147 | the sum with its early break is the sum over all groups, because first pixels never decrease |
| `Coefficients.ScaleColumn` | src/stb/stb_image_resize.h:1154-1162 | scaling with the same break scales exactly one output's weights in all groups and leaves every other weight |
| `Coefficients.NormalizedSum` | src/stb/stb_image_resize.h:1132-1163 | after normalisation the weights of each output add up to 1 wherever the total was not zero |
| `Coefficients.NormalizeColumns` | src/stb/stb_image_resize.h:1132-1163 | the normalisation loop as a whole: each output column divided by its own total, all others untouched |
| `Coefficients.TrimGroup` | src/stb/stb_image_resize.h:1165-1191 | shifting a group left over its zeros and out-of-image pixels, in place, changes no effective weight W(j, i) for i >= 0 |
| `Coefficients.MoveGroup` | src/stb/stb_image_resize.h:1169-1191 | the shift loop, which reads ahead of where it writes, moves every coefficient once, and stops at the width without losing any |
| `CalculateFilters.NormalizeDownsampleCoefficients` | src/stb/stb_image_resize.h:1126-1199 | normalising, skipping and clamping together: the table holds exactly the normalised weights of the outputs inside the image, all entries in range |
| `CalculateFilters.CalculateFiltersUpsample` | src/stb/stb_image_resize.h:1203-1241 | fills all groups of an enlargement with the normalised weights |
| `CalculateFilters.CalculateFiltersDownsample` | src/stb/stb_image_resize.h:1203-1241 | fills, normalises and trims all groups of a shrink |
| `CalculateFilters.FirstsIncrease` | src/stb/stb_image_resize.h:1024-1036 | first outputs are monotone in the input line: the reason why the early break is right |
| `LatticeSums.CubicIsSpline` | src/stb/stb_image_resize.h:797-837 | the three cubic kernels are the same two spline differences, in three proportions |
| `LatticeSums.TailStep` | src/stb/stb_image_resize.h:759-837 | for each of the five filters the kernel, times the step, is the difference over one step of a function in closed form |
| `LatticeSums.WholeSum` | src/stb/stb_image_resize.h:1133-1147 | summed over evenly spaced points across its support, a kernel times the step is 1 and a periodic remainder in closed form, for every step up to 1 and every offset |
| `LatticeSums.CubicRipple` | src/stb/stb_image_resize.h:1149-1150 | for the cubic filters that remainder is below a tenth, whatever step and offset |
| `LatticeSums.TriangleRipple` | src/stb/stb_image_resize.h:1149-1150 | for the triangle it is at most frac(1/s) * (1 - frac(1/s)) * s * s either way, which it reaches where a point meets the centre |
| `LatticeSums.TriangleMissIsSmall` | src/stb/stb_image_resize.h:1149-1150 | that bound is below a tenth if and only if 20 s s - 30 s + 11 > 0 |
| `Totals.TotalIs` | src/stb/stb_image_resize.h:1133-1147 | the total weight of each output sample, over all input lines and their margins, in closed form, for every source region inside [0, 1] |
| `Totals.BoxTotal` | src/stb/stb_image_resize.h:1149-1150 | the total of the box is exactly 1 |
| `Totals.CubicTotal` | src/stb/stb_image_resize.h:1149-1150 | what the source asserts, a total between 0.9 and 1.1, holds for the three cubic filters in every shrink |
| `Totals.TriangleTotal` | src/stb/stb_image_resize.h:1149-1150 | how far the total of the triangle can be from 1 at a scale, and where it gets there |
| `Totals.TriangleAssertion` | src/stb/stb_image_resize.h:1149-1150 | at a scale s the asserted bounds hold for the triangle, for all sizes, regions and samples, if and only if 20 s s - 30 s + 11 > 0 |
| `Totals.TriangleExceeds` | src/stb/stb_image_resize.h:1150 | a shrink that breaks the upper bound: 7 lines on 5 samples, total 55/49 |
| `Totals.TriangleFallsShort` | src/stb/stb_image_resize.h:1149 | a shrink that breaks the lower bound: three quarters of 2 lines on 1 sample, total 8/9 |
| `Totals.TotalIsPositive` | src/stb/stb_image_resize.h:1152 | with every filter, in every shrink, every total is at least 3/4: normalising never divides by zero |
| `LineResampler.ResampleHorizontalUpsample` | src/stb/stb_image_resize.h:1450-1531 | each output pixel gathers its weighted input pixels, all of them inside the decoded line and its margins |
| `LineResampler.ResampleHorizontalDownsample` | src/stb/stb_image_resize.h:1533-1656 | each input pixel is scattered over its outputs; together every output holds its weighted sum |
| `LineResampler.Line.DecodeAndResample` | src/stb/stb_image_resize.h:1658-1687 | a decoded line, resampled into a given buffer, equals the scanline function of its number |
| `RingBuffer.Ring.AddEmptyEntry` | src/stb/stb_image_resize.h:1425-1448 | adds a cleared row at the end, keeps all others; its slot is not the begin index, as the source asserts: no live slot is overwritten |
| `RingBuffer.Ring.PopFirst` | src/stb/stb_image_resize.h:2087-2103 | drops the oldest row and keeps the meaning of all slots, wrapping around |
| `RingBuffer.Ring.Slot` | src/stb/stb_image_resize.h:1689-1694 | the slot of a row is (begin + k - first) mod entries, written out without the modulus |
| `Resampler.Info.LoadRange` | src/stb/stb_image_resize.h:2084-2111 | while loading a range old rows leave from the front and the missing ones are appended: in the end exactly the rows of the range are resident, each equal to the resampled scanline |
| `Resampler.Info.ResampleVerticalUpsample` | src/stb/stb_image_resize.h:1870-1985 | every row it reads is resident, and the row it emits is the weighted sum of the scanlines themselves, as if nothing were cached |
| `Resampler.Info.BufferLoopUpsample` | src/stb/stb_image_resize.h:2067-2118 | emits rows 0 to output_h - 1, once and in order, each as if recomputed |
| `Resampler.Info.ResampleVerticalDownsample` | src/stb/stb_image_resize.h:1987-2065 | adds one input line, weighted, to every accumulator in its range, and to no other |
| `Resampler.Info.EmptyRingBuffer` | src/stb/stb_image_resize.h:2120-2163 | flushes the rows before the first necessary one, in order, those outside the image excepted |
| `Resampler.Info.AddRows` | src/stb/stb_image_resize.h:2192-2197 | makes room for the new outputs with zeros, which is what they have accumulated so far |
| `Resampler.Info.BufferLoopDownsample` | src/stb/stb_image_resize.h:2165-2204 | emits every output row in [0, output_h) exactly once, in order, each with the full sum over all input lines |
| `Resampler.Info.NothingYet` | src/stb/stb_image_resize.h:2192-2197 | before its first range a row has accumulated zero |
| `Resampler.Info.NothingMore` | src/stb/stb_image_resize.h:2181-2188 | a row that leaves the window has all it will ever get: nothing is flushed before its last contribution |
| `Resampler.RowsInOrder` | src/stb/stb_image_resize.h:2120-2163 | what the loops emit is row 0, row 1, and so on |
| `Resize.GatheredIsResampled` | src/stb/stb_image_resize.h:1450-1531 | gathering and the one-dimensional weighted sum agree |
| `Resize.ScatteredIsResampled` | src/stb/stb_image_resize.h:1533-1656 | scattering and the one-dimensional weighted sum agree: margins included, no input line lost |
| `Resize.AxisWeightsSumToOne` | src/stb/stb_image_resize.h:1070-1077 | the weights of every output sample add up to 1, in both directions |
| `Resize.ConstantImage` | src/stb/stb_image_resize.h:2290-2426 | an image of one colour keeps it, whatever the filters, positive sizes and source region inside [0, 1] |
| `Resize.MakeInfo` | src/stb/stb_image_resize.h:2249-2426 | the buffers and tables as sized by the source meet every assumption of the loops |
| `Resize.Resize` | src/stb/stb_image_resize.h:2290-2426 | end to end: for any positive sizes, any filters and any source region inside [0, 1], the output has output_h rows, each pixel the separable weighted sum of the source image; where the weights sit is what `Placement` says |
| `Placement.EdgesMeet` | src/stb/stb_image_resize.h:2231-2235 | scale and shift take output edge 0 to t0 * input and output edge `output` to t1 * input, for every region and both directions |
| `Placement.ScaleIsZoom` | src/stb/stb_image_resize.h:2231-2235 | the scale is the number of output samples to an input sample of the region, the shift that of them before the region |
| `Placement.SamplesArePlaced` | src/stb/stb_image_resize.h:1009-1036 | output sample x is centred on (t0 + (x + 0.5) / output * (t1 - t0)) * input when enlarging; when shrinking an input sample lies as far from it as from that position |
| `Placement.WeightsInWords` | src/stb/stb_image_resize.h:1038-1199 | the weight of input sample k in output sample x is the kernel at their distance, stated without scale and shift, divided by one total for all k: 1 when enlarging, at least 3/4 when shrinking |
| `Placement.KernelsAtSamples` | src/stb/stb_image_resize.h:759-837 | the five kernels at whole distances: box, triangle and Catmull-Rom are 1 at 0 and 0 elsewhere; B-spline 2/3 and 1/6, Mitchell 8/9 and 1/18 |
| `Placement.KernelsOfLines` | src/stb/stb_image_resize.h:759-790 | the box weighs by the length that two intervals share, the triangle falls evenly to 0 at distance 1 |
| `Placement.SamplesAreCopied` | src/stb/stb_image_resize.h:1450-1531 | where an output sample lies on an input sample, an enlargement by an interpolating filter has its value, whatever the line |
| `Placement.ImageIsKept` | src/stb/stb_image_resize.h:2290-2426 | equal sizes, the whole region and an interpolating filter: the resized image is the image itself |
| `Placement.EqualRows` | src/stb/stb_image_resize.h:2290-2426 | an image with equal rows is resampled along its rows by the horizontal axis alone |
| `Placement.EqualColumns` | src/stb/stb_image_resize.h:2290-2426 | and one with equal columns by the vertical axis alone: the two are not exchanged |
| `Placement.RampIsKept` | src/stb/stb_image_resize.h:1038-1090 | an enlarged ramp has, with every filter but the box, the value of its own position at each output sample |
| `NativeWire.HeaderRoundTrip` | tmuxx/conformance/native_wire.py:10-26 | a header reads back as written |
| `NativeWire.HeaderIsUnique` | tmuxx/conformance/native_wire.py:43-46 | and only the 16 bytes that would be written are accepted for it: any other magic, flag or reserved byte is refused |
| `NativeWire.Encode` | tmuxx/conformance/native_wire.py:13-28 | a payload of up to 67108864 bytes, and no other, becomes its frames: 262144 bytes in each but the last, which is marked, each compressed if that is shorter; every byte of them is stated by `OnTheWire` |
| `NativeWire.FramesOnTheWire` | tmuxx/conformance/native_wire.py:9-28 | the bytes of an encoding: 54 4D 58 32, then 1 if last plus 2 if compressed, 00 00 00, the two lengths little-endian, and the data, frame after frame |
| `NativeWire.WireIsFrames` | tmuxx/conformance/native_wire.py:9-28 | those requirements leave no byte open: only the encoding meets them |
| `NativeWire.Source.Exact` | tmuxx/conformance/native_wire.py:32-39 | exactly the bytes asked for, however short the reads, or the end of the stream |
| `NativeWire.ReadRecord` | tmuxx/conformance/native_wire.py:31-61 | the reader with short reads equals a pure parser of the remaining bytes: same result, same error, same rest; a first header that is not acceptable is refused for the reason that its bytes give, with just 16 bytes taken |
| `NativeWire.FrameIsChecked` | tmuxx/conformance/native_wire.py:41-61 | one frame, on its bytes: every reason to refuse it, in order (form, limits, a compressed block no shorter than decoded, a short block that is not the last, the room), and otherwise what it adds and where the next begins |
| `NativeWire.ReadsWhatIsCarried` | tmuxx/conformance/native_wire.py:41-61 | a payload and a rest are read from a stream if and only if the bytes of the stream carry that payload before that rest |
| `NativeWire.RecordRoundTrip` | tmuxx/conformance/native_wire.py:13-61 | the encoding of a record followed by any rest reads back as the record and leaves exactly the rest, if and only if the payload is within the reader's limit |
| `NativeWire.StreamRoundTrip` | tmuxx/conformance/native_wire.py:13-61 | concatenated encodings read back one after the other and leave exactly what follows them |
| `NativeWire.CutShort` | tmuxx/conformance/native_wire.py:32-39 | every proper prefix of an encoding ends in the end of the stream, never in a record |
| `NativeWire.FrameIsBounded` | tmuxx/conformance/native_wire.py:43-58 | a frame consumes at most a header and a block, and grows the payload by at most a block and never beyond the limit, on any input |
| `NativeWire.ReadIsBounded` | tmuxx/conformance/native_wire.py:41-61 | on any input whatever the reader stops within a bound of bytes that depends on the limit alone |
| `NativeWire.ReadLimitFormula` | tmuxx/conformance/native_wire.py:41-61 | that bound written out |
| `Lut.BuildLut` | src/font/nerd_font_codegen.py:256-305 | succeeds if and only if literals, codepoints and pages fit, with the first error in source order otherwise; then every codepoint up to 0x1FFFFF finds its literal or "null" through in-bounds 16-bit indexes, nothing is stored twice (distinct blocks, equal offsets exactly for equal pages, distinct literals), and literals and blocks are in the order in which they are first needed |
| `Lut.BuildStage3` | src/font/nerd_font_codegen.py:261-275 | numbers the distinct literals; fails exactly if there are more than 65535 |
| `Lut.BuildPages` | src/font/nerd_font_codegen.py:280-284 | files every index under its page and place, exactly if all codepoints fit 21 bits |
| `Lut.BuildStages` | src/font/nerd_font_codegen.py:277-304 | stages 1 and 2, exactly if the different pages fit 16-bit offsets |
| `Lut.FillBlock` | src/font/nerd_font_codegen.py:292-294 | a block of 256 indexes with zeros where nothing is filed |
| `Lut.FindsLiteral` | src/font/nerd_font_codegen.py:286-305 | stage 1, 2 and 3 together return the literal of the codepoint |
| `Lut.StoresOnce` | src/font/nerd_font_codegen.py:277-301 | stage 2 consists of pairwise distinct blocks, and two pages share one if and only if they hold the same literals |
| `Lut.BlockIdentifiesPage` | src/font/nerd_font_codegen.py:295-296 | comparing blocks of indexes is comparing pages of literals |
| `Lut.MapServesAll` | src/font/nerd_font_codegen.py:286-305 | the same lookup in numbers: stage1[cp / 256] + cp % 256, in bounds for each of the 0x200000 codepoints |
| `Lut.DeduplicatedSharesAll` | src/font/nerd_font_codegen.py:277-301 | the same sharing in numbers: 8192 pages, offsets equal exactly where all 256 literals are, no block or literal that is not needed |
| `Lut.MetIsNeeded` | src/font/nerd_font_codegen.py:261-301 | literals and blocks are numbered by the first codepoint and the first page that need them |
| `Packing.GenerateCodepointTables` | src/font/nerd_font_codegen.py:350-421 | the nested loops with their running target and used-set succeed if and only if every set is consistent and every codepoint with a glyph has a place of its own that the font has; the tables then hold just the codepoints with a glyph, each under the place in the last set of its name that has one; an error is the first violation in order, and is one in plain words, too |
| `Packing.GlyphIsPresent` | src/font/nerd_font_codegen.py:390-408 | a codepoint is present if and only if it is between symStart and symEnd and the font map is missing, empty, or has it; what makes a set consistent, written out |
| `Packing.RankCountsGlyphs` | src/font/nerd_font_codegen.py:403-409 | the running count is the number of codepoints below with a glyph, as the size of a set |
| `Packing.PlaceIsTarget` | src/font/nerd_font_codegen.py:403-421 | the target is the codepoint itself, or the start plus that number |
| `Packing.PackableCanBePacked` | src/font/nerd_font_codegen.py:390-421 | the condition for success, in the same words |
| `Packing.SucceedsWhenPackable` | src/font/nerd_font_codegen.py:390-421 | packing succeeds if and only if every patch set is consistent, every target exists in the font, and no two codepoints of any patch sets share one |
| `Packing.TargetsIncrease` | src/font/nerd_font_codegen.py:403-409 | targets increase strictly with the original codepoints |
| `Packing.TargetsAreContiguous` | src/font/nerd_font_codegen.py:376-384 | a patch set that is not exact fills an interval from its start on: a codepoint is a target if and only if it lies in it |
| `Packing.TablesAreInjective` | src/font/nerd_font_codegen.py:410-421 | no two keys (name, original codepoint) of the final tables, same-named patch sets merged, have one target, and all are in the font |
| `CollectEntries.Collect` | src/font/nerd_font_codegen.py:455-564 | collects all entries, each scaled by its own patch set's rules, if and only if no two same-named patch sets cover one codepoint and all scale groups can be applied; an error is a true overlap, or a scaling error of one of the sets |
| `CollectEntries.TakenIsClash` | src/font/nerd_font_codegen.py:466-469 | the overlap error is raised exactly for a codepoint that an earlier patch set of the same name covers |
| `CollectEntries.CoversWhatIsPresent` | src/font/nerd_font_codegen.py:403-466 | across both loops: the entries are those of the codepoints with a glyph, each under the target it was packed to |
| `CollectEntries.CollectedAreEntries` | src/font/nerd_font_codegen.py:455-564 | from the font map to the entries: one for each codepoint with a glyph, under its place, with its own attributes or the default, placed by its set's scale groups; only "Progress Indicators" is padded |
| `ScaleGroups.MeasureGroup` | src/font/nerd_font_codegen.py:478-532 | bounding box, individual bounds and monospacing of a group, the padding glyph counting vertically only; otherwise the first glyph that is missing or empty |
| `ScaleGroups.Font.VerticalCovers` | src/font/nerd_font_codegen.py:496-529 | the box covers every glyph of the group, the padding glyph included |
| `ScaleGroups.Font.VerticalIsTight` | src/font/nerd_font_codegen.py:496-529 | and no more: glyphs of the group reach both its ends |
| `ScaleGroups.Font.HorizontallyIsTight` | src/font/nerd_font_codegen.py:496-532 | nor is the box any wider: members of the group, the padding glyph not among them, reach both its sides |
| `ScaleGroups.Font.ScaleIsRelative` | src/font/nerd_font_codegen.py:548-563 | 0 <= relative_y, 0 <= relative_height and relative_y + relative_height <= 1, and the same horizontally when the group is monospace |
| `ScaleGroups.Font.ScaleRestoresBounds` | src/font/nerd_font_codegen.py:549-554 | the relative numbers put the glyph back where it is in the box: bottom and top always, left and right if the group is monospace, and there are horizontal numbers exactly then |
| `ScaleGroups.ClaimMembers` | src/font/nerd_font_codegen.py:534-563 | scales exactly the members without a scale, to their place in the group (`ScaleIsPlace`), and fails exactly if there is one and a size is zero |
| `ScaleGroups.ApplyScaleRules` | src/font/nerd_font_codegen.py:476-563 | over all groups, the first group with a glyph claims it and later ones leave it, other entries are unchanged; succeeds exactly if all glyphs that count (U+EDFF through U+E0B0) are there and every claiming group has sizes to divide by; each scale, put back between the least and greatest bounds of that group, gives the bounds of the glyph |
| `ScaleGroups.ScaleIsPlace` | src/font/nerd_font_codegen.py:536-563 | what a group makes of a member is its place between the least and greatest bounds of the group, horizontally if and only if there is more than one member and all advances are equal |
| `ScaleGroups.AppliedIsPlaced` | src/font/nerd_font_codegen.py:476-563 | so each entry ends with its place in the first group that has it |
| `ScaleGroups.ApplicableIsPlaceable` | src/font/nerd_font_codegen.py:476-563 | the condition for success, on glyphs, bounds and advances alone |
| `ScaleGroups.ScalesAreRelative` | src/font/nerd_font_codegen.py:536-563 | an entry gets a scale if and only if some group has its glyph, and the scale is within bounds, vertically and, if there is one, horizontally |
| `CodepointWidth.ArrayMin` | src/simd/codepoint_width.cpp:25-32 | the least key that is not padding, if there is any |
| `CodepointWidth.ArrayMax` | src/simd/codepoint_width.cpp:33-39 | the greatest key |
| `CodepointWidth.Scan` | src/simd/codepoint_width.cpp:279-297 | for every lane count: the first key with the input among those that whole vectors reach, as vector start and lane; padding never hits |
| `CodepointWidth.GuardedScan` | src/simd/codepoint_width.cpp:299-317 | the least and greatest key in front of a scan change no answer |
| `CodepointWidth.ScanFast16` | src/simd/codepoint_width.cpp:262-297 | the first 16-bit scan, and when the assertion behind it holds that all fast keys have been seen: for up to 40 lanes and no more |
| `CodepointWidth.ScanWide32` | src/simd/codepoint_width.cpp:365-389 | the first 32-bit scan, and its assertion: for up to 16 lanes and no more |
| `CodepointWidth.CodepointWidth16` | src/simd/codepoint_width.cpp:256-357 | what the 16-bit scans return for any lane count |
| `CodepointWidth.CodepointWidth32` | src/simd/codepoint_width.cpp:360-470 | what the 32-bit scans return for any lane count |
| `CodepointWidth.LaneCounts16` | src/simd/codepoint_width.cpp:256-357 | the 16-bit lookup equals the ordered range definition for every codepoint if and only if there are 8 to 40 lanes |
| `CodepointWidth.LaneCounts32` | src/simd/codepoint_width.cpp:360-470 | the 32-bit lookup does if and only if there are at most 16 lanes |
| `CodepointWidth.TooFewLanes` | src/simd/codepoint_width.cpp:285-294 | the lane-local test needs 8 lanes: with fewer U+FFF0 comes out as width 2 instead of 0 |
| `CodepointWidth.TooManyLanes16` | src/simd/codepoint_width.cpp:279 | with more than 40 lanes the first table is skipped and U+2E3A comes out as width 1 instead of 2 |
| `CodepointWidth.TooManyLanes32` | src/simd/codepoint_width.cpp:380 | with more than 16 lanes U+3FFFD comes out as width 1 instead of 2 |
| `CodepointWidth.CodepointWidth` | src/simd/codepoint_width.cpp:472-494 | the dispatch on size: the ordered range definition for all codepoints, with lane counts as above; stated by the answers, 2, 0 or 1, each exactly for the codepoints it is for |
| `CodepointWidth.WidthIs` | src/simd/codepoint_width.cpp:256-494 | when the ordered definition answers 2, when 0 and when 1, by the tables that hold the codepoint |
| `CodepointWidth.KnownWidths16` | src/simd/codepoint_width.cpp:256-357 | a codepoint that each 16-bit table decides, and one that none does, with its width |
| `CodepointWidth.KnownWidths32` | src/simd/codepoint_width.cpp:360-470 | the same for the 32-bit tables |
| `BufferedChild.Child.Store` | tmuxx/conformance/remote_c_control.py:69-75 | stops exactly if more than 8388608 bytes would be waiting, with its message recorded and nothing stored; otherwise appends to its own stream and leaves the other; the backlog bound holds either way |
| `BufferedChild.Child.Read` | tmuxx/conformance/remote_c_control.py:109-120 | raises exactly if there is a nonempty failure, with that very message and nothing removed, whatever is waiting; waits exactly if there is neither failure nor output nor end; otherwise hands out the first 65536 bytes of output, or all, and all errors, removing just those |
| `BufferedChild.StepKeepsInvariant` | tmuxx/conformance/remote_c_control.py:66-120 | every step of either reader, the client, the pipes and the consumer keeps bound, order and end marks |
| `BufferedChild.RunKeepsInvariant` | tmuxx/conformance/remote_c_control.py:66-120 | so the invariant holds after every run, whatever the interleaving |
| `BufferedChild.ReadsContinueTheStreams` | tmuxx/conformance/remote_c_control.py:107-120 | in every run output and errors stay within the backlog, what was delivered is a prefix of each stream, and a read continues both |
| `BufferedChild.FailureStopsDelivery` | tmuxx/conformance/remote_c_control.py:69-120 | once a reader has recorded its failure no later step, of any run, delivers a byte of either stream |
| `BufferedChild.OverflowNeedsData` | tmuxx/conformance/remote_c_control.py:70-74 | no reader overflows in any run in which the client has written at most 8388608 bytes to both pipes together |
| `BufferedChild.NoLostWakeUp` | tmuxx/conformance/remote_c_control.py:71-83 | in every run a consumer that sleeps although it could go on is about to be notified, although a failing reader notifies only when it finishes |
| `BufferedChild.EmptyReadIsTheEnd` | tmuxx/conformance/remote_c_control.py:76-120 | a read without output and without exception means that all of standard output was delivered, in every run, if and only if no failed read can have an empty message |
| `BufferedChild.EmptyMessageHidesLoss` | tmuxx/conformance/remote_c_control.py:76-78 | why the messages have to be nonempty, as those of `os.read` are: a run in which an empty one is taken for no failure, and the end reported although a byte was lost |
| `BufferedChild.ErrorsMayFollowTheEnd` | tmuxx/conformance/remote_c_control.py:80-83 | a run in which standard error goes on after the read that reported the end |
| `BufferedChild.ReadsDrain` | tmuxx/conformance/remote_c_control.py:107-120 | once output has ended without failure, as many reads as there are 65536-byte pieces deliver all of it |
| `BufferedChild.Input.Write` | tmuxx/conformance/remote_c_control.py:88-105 | the bytes accepted are a prefix of the data, all of it on normal return and none if it is too large; partial writes are never repeated, and the deadline ends the loop; a client that is always ready and takes bytes gets all of them, given the time |

## Left out

- Vt.DecodeUTF8UntilControlSeq: the lane count is 1 or a multiple of 4, because vectors are stored by quarters; other counts do not exist.
- The vector length the Zig compiler suggests for a target: a parameter of the scalar decoder, possibly absent.
- Resize.Resize: exact real arithmetic and one channel.
- MessagePack and LZ4: any serializer and compressor that can be undone and return something.
- Clocks, process states and `select` of the client: nondeterministic answers before each write, and timeouts at any time.
- Infinite extents of scale groups without members: an empty extent here; nothing is divided by it in either.
- CollectEntries.Collect: which of several errors comes first is not stated; the one that is reported is true.
- Instruction sets: a vector is a sequence of lanes, a mask search the least true lane.
- Control sequences after ESC: decoding of text stops there.
- Base64 decoding, which only calls a library.
- Rounding, sRGB curves, integer formats, alpha handling and the unrolled loops per channel count of the resampler.
- Edge modes: they only decide what a pixel outside of the image is.
- Progress reports and memory layout of the resampler.
- Reading fonts, parsing the patcher, downloads and written files of the font code; literals and bounds are inputs.
- Emission of the constraint literals as text.
- Starting, signalling and closing the client process.
