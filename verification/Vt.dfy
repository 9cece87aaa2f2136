/** The UTF-8 decoder of src/simd/vt.cpp, and the scalar decoder of src/simd/vt.zig it must match. */
module Vt {
  import opened Basics
  import opened Utf8
  import opened Utf8Properties
  import opened Simd
  import Simdutf

  // ----- Maximal subparts and trimming -----

  /** The length of the maximal subpart `p` starts with, by the ranges of Table 3-7. */
  method MaximalSubpart(p: bytes) returns (valid: nat)
    ensures p == [] ==> valid == 0
    ensures p != [] ==> IsMaximalSubpart(p, valid)
  {
    if |p| == 0 { return 0; }
    var b0 := p[0];
    SubpartIsMaximal(p, Subpart(p));
    if b0 < 0xC2 || b0 > 0xF4 {
      assert Subpart(p) == 1;
      return 1;
    }
    var lo: bytes, hi: bytes;
    if b0 <= 0xDF {
      lo, hi := [0x80], [0xBF];
    } else if b0 == 0xE0 {
      lo, hi := [0xA0, 0x80], [0xBF, 0xBF];
    } else if b0 <= 0xEC {
      lo, hi := [0x80, 0x80], [0xBF, 0xBF];
    } else if b0 == 0xED {
      lo, hi := [0x80, 0x80], [0x9F, 0xBF];
    } else if b0 <= 0xEF {
      lo, hi := [0x80, 0x80], [0xBF, 0xBF];
    } else if b0 == 0xF0 {
      lo, hi := [0x90, 0x80, 0x80], [0xBF, 0xBF, 0xBF];
    } else if b0 <= 0xF3 {
      lo, hi := [0x80, 0x80, 0x80], [0xBF, 0xBF, 0xBF];
    } else {
      lo, hi := [0x80, 0x80, 0x80], [0x8F, 0xBF, 0xBF];
    }
    var seqLen := 1 + |lo|;
    assert Ranges(b0, lo, hi);
    valid := 1;
    var i := 0;
    while i < seqLen - 1 && valid < |p|
      invariant valid == i + 1 <= |p| && valid <= seqLen
      invariant Matches(p[..valid])
    {
      var cb := p[valid];
      RangeStep(p, valid, lo, hi);
      if cb < lo[i] || cb > hi[i] { break; }
      valid, i := valid + 1, i + 1;
    }
    SubpartFound(p, valid);
  }

  /** `lo` and `hi` bound the continuation bytes of a sequence led by `b0`. */
  predicate Ranges(b0: byte, lo: bytes, hi: bytes) {
    && SequenceLength(b0) == 1 + |lo| == 1 + |hi| && 1 <= |lo| <= 3
    && lo[0] == SecondLow(b0) && hi[0] == SecondHigh(b0)
    && forall i :: 1 <= i < |lo| ==> lo[i] == 0x80 && hi[i] == 0xBF
  }

  lemma RangeStep(p: bytes, valid: nat, lo: bytes, hi: bytes)
    requires 1 <= valid < |p| && Ranges(p[0], lo, hi) && valid <= |lo| && Matches(p[..valid])
    ensures Matches(p[..valid + 1]) <==> lo[valid - 1] <= p[valid] <= hi[valid - 1]
  {}

  lemma SubpartFound(p: bytes, valid: nat)
    requires 1 <= valid <= |p| && Matches(p[..valid])
    requires valid < |p| ==> !Matches(p[..valid + 1])
    ensures IsMaximalSubpart(p, valid)
  {
    hide WellFormed, Matches, Initial, Scalar, Decode, Subpart;
    DecodeAt(p, valid);
    SubpartIsMaximal(p, valid);
  }

  /** `Trim`, by a scan of the last four bytes. */
  method TrimValidPartialUTF8(input: bytes) returns (t: nat)
    ensures t == Trim(input)
  {
    hide Trim, Subpart, IsMaximalSubpart;
    var len := |input|;
    if len == 0 { return 0; }
    var checkStart := if len > 4 then len - 4 else 0;
    var pos := len;
    while pos > checkStart
      invariant checkStart <= pos <= len
      invariant forall i :: pos <= i < len ==> IsContinuation(input[i])
    {
      var b := input[pos - 1];
      if IsContinuation(b) {
        pos := pos - 1;
        continue;
      }
      TrimAtLead(input, pos - 1);
      if b < 0xC2 || b > 0xF4 { return len; }
      var expected := if b <= 0xDF then 2 else if b <= 0xEF then 3 else 4;
      var seqRemaining := len - (pos - 1);
      if seqRemaining >= expected {
        return len;
      }
      var tail := input[pos - 1..];
      var subpart := MaximalSubpart(tail);
      SubpartIsMaximal(tail, subpart);
      WholeSubpart(tail);
      if subpart == seqRemaining {
        return pos - 1;
      }
      return len;
    }
    TrimNothing(input, checkStart);
    return len;
  }

  /** Bytes that are their own maximal subpart are the start of a sequence, or a single byte that starts none. */
  lemma WholeSubpart(s: bytes)
    requires s != [] && 0xC2 <= s[0] <= 0xF4
    ensures Subpart(s) == |s| <==> Matches(s)
  {
    hide WellFormed;
    assert s[..|s|] == s;
    PrefixesMatch(s);
    assert Matches(s[..1]);
  }

  lemma TrimAtLead(s: bytes, u: nat)
    requires u < |s| && !IsContinuation(s[u]) && forall i :: u < i < |s| ==> IsContinuation(s[i])
    ensures Trim(s) == if Partial(s[u..]) then u else |s|
  {
    hide WellFormed, Initial, Trim;
    var t := Trim(s);
    MatchesIsInitial(s[u..]);
    TrimIsExact(s, u);
    if t < |s| { TrimIsExact(s, t); }
  }

  lemma TrimNothing(s: bytes, u: nat)
    requires u <= |s| && (u > 0 ==> |s| - u >= 4) && forall i :: u <= i < |s| ==> IsContinuation(s[i])
    ensures Trim(s) == |s|
  {
    hide Trim;
    if Trim(s) < |s| { TrimIsExact(s, Trim(s)); }
  }

  // ----- Decoding into a buffer -----

  /** Writes the decoding of `input` from `output[at]` on and returns how many code points it has.
      No position after the first `|input|` is touched. */
  method DecodeUTF8(input: bytes, output: array<int>, at: nat) returns (n: nat)
    requires at + |input| <= output.Length
    modifies output
    ensures n == |Decode(input)| <= |input|
    ensures output[at..at + n] == Decode(input)
    ensures forall i :: 0 <= i < output.Length && !(at <= i < at + |input|) ==> output[i] == old(output[i])
  {
    hide *;
    ghost var text := Decode(input);
    DecodeEmitsScalarValues(input);
    if |input| == 0 {
      DecodeAsciiOnly([]);
      return 0;
    }
    var rest: bytes := input;
    n := 0;
    while |rest| > 0
      invariant n + |rest| <= |input| && n <= |text| && Decode(rest) == text[n..]
      invariant output[at..at + n] == text[..n]
      invariant forall i :: 0 <= i < output.Length && !(at <= i < at + |input|) ==> output[i] == old(output[i])
    {
      ghost var before := output[..];
      var wrote, skip := DecodeToError(rest, output, at + n);
      assert forall i :: at <= i < at + n ==> output[i] == before[i];
      Extended(before, output[..], at, n, wrote, text);
      rest, n := rest[skip..], n + wrote;
    }
    DecodeAsciiOnly([]);
    assert |text[n..]| == 0;
  }

  /** A part that is written behind another continues the text. */
  lemma Extended(before: seq<int>, after: seq<int>, at: nat, n: nat, wrote: nat, text: seq<int>)
    requires |before| == |after| && at + n + wrote <= |after| && n + wrote <= |text|
    requires before[at..at + n] == text[..n] && after[at + n..at + n + wrote] == text[n..][..wrote]
    requires forall i :: at <= i < at + n ==> after[i] == before[i]
    ensures after[at..at + n + wrote] == text[..n + wrote] && text[n..][wrote..] == text[n + wrote..]
  {
    forall i | 0 <= i < n + wrote ensures after[at + i] == text[i] {
      if i < n {
        assert before[at..at + n][i] == text[..n][i];
      } else {
        assert after[at + n..at + n + wrote][i - n] == text[n..][..wrote][i - n];
      }
    }
  }

  /** One round: everything up to the first error, and one U+FFFD for the error. */
  method DecodeToError(rest: bytes, output: array<int>, out: nat) returns (wrote: nat, skip: nat)
    requires rest != [] && out + |rest| <= output.Length
    modifies output
    ensures wrote <= skip <= |rest| && skip > 0 && wrote <= |Decode(rest)|
    ensures output[out..out + wrote] == Decode(rest)[..wrote]
    ensures Decode(rest[skip..]) == Decode(rest)[wrote..]
    ensures forall i :: 0 <= i < output.Length && !(out <= i < out + |rest|) ==> output[i] == old(output[i])
  {
    hide *;
    var r := Simdutf.ConvertWithErrors(rest, output, out);
    if r.Success? {
      DecodeAsciiOnly([]);
      assert rest[|rest|..] == [];
      return r.count, |rest|;
    }
    ErrorStep(rest);
    wrote := Simdutf.CountUtf8(rest[..r.position]);
    var subpart := MaximalSubpart(rest[r.position..]);
    SubpartIsMaximal(rest[r.position..], subpart);
    ghost var text := output[out..out + wrote];
    output[out + wrote] := REPLACEMENT;
    assert output[out..out + wrote + 1] == text + [REPLACEMENT] == Decode(rest)[..wrote + 1];
    return wrote + 1, r.position + subpart;
  }

  /** What the loop of `DecodeUTF8` relies on at an error. */
  lemma ErrorStep(s: bytes)
    requires Simdutf.ValidPrefix(s) < |s|
    ensures var v := Simdutf.ValidPrefix(s); var m := Subpart(s[v..]); var n := |Decode(s[..v])|;
      && 1 <= m <= |s| - v
      && Simdutf.CountUtf8(s[..v]) == n <= v && n < |Decode(s)|
      && Decode(s)[..n] == Decode(s[..v])
      && Decode(s)[n] == REPLACEMENT
      && Decode(s)[n + 1..] == Decode(s[v + m..])
      && !WellFormed(s[v..][..m])
  {
    hide WellFormed, Scalar, Subpart, Simdutf.ValidPrefix, Simdutf.CountUtf8;
    hide Decode;
    var v := Simdutf.ValidPrefix(s);
    var bad := s[v..];
    Simdutf.SplitAtError(s);
    assert bad[Subpart(bad)..] == s[v + Subpart(bad)..];
    DecodeUnfold(bad);
    DecodeEmitsScalarValues(s[..v]);
  }

  lemma DecodeUnfold(s: bytes)
    requires s != []
    ensures var w := s[..Subpart(s)];
      Decode(s) == [if WellFormed(w) then Scalar(w) else REPLACEMENT] + Decode(s[Subpart(s)..])
  {
    hide WellFormed, Subpart, Scalar;
  }

  // ----- Decoding until a control sequence -----

  /** `ascii` says that the text is the consumed bytes themselves and the buffer is not to be read. */
  datatype DecodeResult = DecodeResult(consumed: nat, decoded: nat, ascii: bool)

  /** The decoded text of a call that returned `r`. */
  function Text(input: bytes, r: DecodeResult, output: seq<int>): seq<int>
    requires r.consumed <= |input| && r.decoded <= |output|
  {
    if r.ascii then input[..r.consumed] else output[..r.decoded]
  }

  /** Where decoding stops: at the first ESC, or before an incomplete tail. */
  function Stop(input: bytes): (n: nat)
    ensures n <= |input|
  {
    if FirstEsc(input) < |input| then FirstEsc(input) else Trim(input)
  }

  /** `r` and the buffer are what decoding `input` until an ESC has to give. */
  ghost predicate DecodesUntilEsc(input: bytes, r: DecodeResult, output: seq<int>) {
    && r.consumed == Stop(input)
    && r.decoded == |Decode(input[..r.consumed])| <= |output|
    && (r.ascii <==> IsAscii(input[..FirstEsc(input)]))
    && Text(input, r, output) == Decode(input[..r.consumed])
  }

  /** Nothing is consumed behind an ESC, and everything before it. */
  lemma StopsAtEsc(input: bytes)
    ensures 0x1B !in input[..Stop(input)]
    ensures 0x1B in input ==> Stop(input) < |input| && input[Stop(input)] == 0x1B
  {
    hide Trim;
  }

  lemma DecodedStops(input: bytes)
    ensures forall r: DecodeResult, out: seq<int> :: DecodesUntilEsc(input, r, out) ==> r.consumed == Stop(input)
  {}

  /** The requirements leave no freedom: two decoders that meet them agree on everything. */
  lemma DecodersAgree(input: bytes, r1: DecodeResult, out1: seq<int>, r2: DecodeResult, out2: seq<int>)
    requires DecodesUntilEsc(input, r1, out1) && DecodesUntilEsc(input, r2, out2)
    ensures r1 == r2 && Text(input, r1, out1) == Text(input, r2, out2)
    ensures r1.ascii ==> r1.decoded == r1.consumed
  {}

  /** The flag speaks of everything before the first ESC or the end. It says the same of what is consumed exactly
      if there is an ESC, or no incomplete tail, or a byte that is not ASCII before that tail. */
  lemma AsciiOfConsumed(input: bytes)
    ensures (IsAscii(input[..FirstEsc(input)]) <==> IsAscii(input[..Stop(input)])) <==>
            || ESC in input
            || Trim(input) == |input|
            || exists i :: 0 <= i < Trim(input) && input[i] >= 0x80
  {
    hide Trim, FirstEsc;
    var t := Trim(input);
    if ESC !in input && t < |input| {
      assert FirstEsc(input) == |input| && input[..|input|] == input;
      TailIsNotAscii(input);
      assert forall i :: 0 <= i < t ==> input[..t][i] == input[i];
    }
  }

  lemma TailIsNotAscii(input: bytes)
    requires Trim(input) < |input|
    ensures !IsAscii(input)
  {
    hide Initial, WellFormed, Trim;
    var t := Trim(input);
    TrimIsExact(input, t);
    MatchesIsInitial(input[t..]);
    PartialStartsWithLead(input[t..]);
    assert input[t..][0] == input[t] >= 0x80;
  }

  /** An input that is cut off at once: no byte is consumed, all none of them ASCII, yet the flag is off. */
  lemma AsciiOfNothing()
    ensures Stop([0xE2]) == 0 && IsAscii([0xE2][..0]) && !IsAscii([0xE2][..FirstEsc([0xE2])])
  {
    TrimIsExact([0xE2], 0);
    MatchesIsInitial([0xE2]);
    assert [0xE2][0..] == [0xE2] && FirstEsc([0xE2]) == 1;
    assert [0xE2][..1] == [0xE2] && [0xE2][0] == 0xE2;
  }

  /** Stores the lanes of `v` one code point each, a quarter vector at a time. */
  method WidenAsciiStore(v: bytes, output: array<int>, at: nat)
    requires IsLaneCount(|v|) && at + |v| <= output.Length
    modifies output
    ensures output[at..at + |v|] == v
    ensures forall i :: 0 <= i < output.Length && !(at <= i < at + |v|) ==> output[i] == old(output[i])
  {
    if |v| == 1 {
      output[at] := v[0];
      return;
    }
    var n4 := |v| / 4;
    var quarter := 0;
    while quarter < 4
      invariant 0 <= quarter <= 4
      invariant forall i :: 0 <= i < quarter * n4 ==> output[at + i] == v[i]
      invariant forall i :: 0 <= i < output.Length && !(at <= i < at + |v|) ==> output[i] == old(output[i])
    {
      forall lane | 0 <= lane < n4 {
        output[at + (quarter * n4 + lane)] := v[quarter * n4 + lane];
      }
      quarter := quarter + 1;
    }
  }

  /** An ASCII prefix followed by a decoded part is the decoding of both. */
  lemma AfterAscii(input: bytes, base: nat, stop: nat, output: seq<int>, n: nat)
    requires base <= stop <= |input| && IsAscii(input[..base])
    requires base + n <= |output| && output[..base] == input[..base]
    requires output[base..base + n] == Decode(input[base..stop])
    ensures output[..base + n] == Decode(input[..stop]) && base + n <= stop
  {
    hide Decode;
    assert input[..stop] == input[..base] + input[base..stop];
    DecodeAscii(input[..base], input[base..stop]);
    DecodeEmitsScalarValues(input[..stop]);
    assert output[..base + n] == output[..base] + output[base..base + n];
  }

  /** Decodes `input[base..stop]` behind the ASCII prefix that is already stored. */
  method DecodeUpTo(input: bytes, base: nat, stop: nat, output: array<int>) returns (outputCount: nat)
    requires base <= stop <= |input| <= output.Length
    requires IsAscii(input[..base]) && output[..base] == input[..base]
    modifies output
    ensures outputCount == |Decode(input[..stop])| <= stop
    ensures output[..outputCount] == Decode(input[..stop])
    ensures forall i :: |input| <= i < output.Length ==> output[i] == old(output[i])
  {
    hide Decode;
    var n := DecodeUTF8(input[base..stop], output, base);
    AfterAscii(input, base, stop, output[..], n);
    return base + n;
  }

  /** Decodes from the first non-ASCII byte on. The caller has stored what precedes `base`. */
  method DecodeNonAsciiUntilControlSeq(lanes: nat, input: bytes, base: nat, output: array<int>)
    returns (consumed: nat, outputCount: nat)
    requires lanes > 0
    requires base <= |input| <= output.Length
    requires IsAscii(input[..base]) && ESC !in input[..base] && output[..base] == input[..base]
    modifies output
    ensures consumed == Stop(input)
    ensures outputCount == |Decode(input[..consumed])| <= consumed
    ensures output[..outputCount] == Decode(input[..consumed])
    ensures forall i :: |input| <= i < output.Length ==> output[i] == old(output[i])
  {
    hide Decode, Trim;
    var i := base;
    while i + lanes <= |input|
      invariant base <= i <= |input| && ESC !in input[..i]
    {
      var esc := IndexOfChunk(ESC, input[i..i + lanes]);
      if esc.None? {
        assert forall k :: i <= k < i + lanes ==> input[k] == input[i..i + lanes][k - i];
        i := i + lanes;
        continue;
      }
      consumed := i + esc.value;
      assert forall k :: i <= k < consumed ==> input[k] == input[i..i + lanes][..esc.value][k - i];
      FirstEscIsUnique(input, consumed);
      outputCount := DecodeUpTo(input, base, consumed, output);
      return;
    }
    while i < |input|
      invariant base <= i <= |input| && ESC !in input[..i]
    {
      if input[i] == ESC {
        FirstEscIsUnique(input, i);
        outputCount := DecodeUpTo(input, base, i, output);
        return i, outputCount;
      }
      i := i + 1;
    }
    FirstEscIsUnique(input, |input|);
    TrimAfterAscii(input, base);
    var trimmedLen := TrimValidPartialUTF8(input[base..]);
    consumed := base + trimmedLen;
    outputCount := DecodeUpTo(input, base, consumed, output);
  }

  /** Widens the ASCII prefix, perhaps past `base` (never past the input), then decodes the rest. */
  method DecodeAfterAscii(lanes: nat, input: bytes, base: nat, output: array<int>)
    returns (consumed: nat, outputCount: nat)
    requires IsLaneCount(lanes)
    requires base <= |input| <= output.Length
    requires IsAscii(input[..base]) && ESC !in input[..base]
    modifies output
    ensures consumed == Stop(input)
    ensures outputCount == |Decode(input[..consumed])| <= consumed
    ensures output[..outputCount] == Decode(input[..consumed])
    ensures forall i :: |input| <= i < output.Length ==> output[i] == old(output[i])
  {
    hide Decode, Trim, FirstEsc;
    var i := 0;
    while i < base && i + lanes <= |input|
      invariant 0 <= i <= |input|
      invariant forall k :: 0 <= k < i ==> output[k] == input[k]
      invariant forall k :: |input| <= k < output.Length ==> output[k] == old(output[k])
    {
      WidenAsciiStore(input[i..i + lanes], output, i);
      assert forall k :: i <= k < i + lanes ==> output[k] == output[i..i + lanes][k - i];
      i := i + lanes;
    }
    while i < base
      invariant 0 <= i <= |input|
      invariant forall k :: 0 <= k < i ==> output[k] == input[k]
      invariant forall k :: |input| <= k < output.Length ==> output[k] == old(output[k])
    {
      output[i] := input[i];
      i := i + 1;
    }
    consumed, outputCount := DecodeNonAsciiUntilControlSeq(lanes, input, base, output);
  }

  /** The entry point. The buffer is only written when there is something other than ASCII. */
  method DecodeUTF8UntilControlSeq(lanes: nat, input: bytes, output: array<int>) returns (r: DecodeResult)
    requires IsLaneCount(lanes)
    requires |input| <= output.Length
    modifies output
    ensures DecodesUntilEsc(input, r, output[..])
    ensures r.ascii ==> output[..] == old(output[..])
    ensures forall i :: |input| <= i < output.Length ==> output[i] == old(output[i])
    ensures r.consumed <= |input| && 0x1B !in input[..r.consumed]
    ensures 0x1B in input ==> r.consumed < |input| && input[r.consumed] == 0x1B
  {
    StopsAtEsc(input);
    DecodedStops(input);
    hide Decode, Trim, FirstEsc, IsAscii, DecodesUntilEsc, Stop;
    var i, consumed, decoded := 0, 0, 0;
    while i + lanes <= |input|
      invariant i <= |input| && PlainUpTo(input, i)
      invariant output[..] == old(output[..])
    {
      var v := input[i..i + lanes];
      var stopMask := seq(lanes, k requires 0 <= k < |v| => v[k] == ESC || v[k] >= 0x80);
      var stop := FindFirstTrue(stopMask);
      var clear := if stop < 0 then i + lanes else i + stop;
      assert forall k :: i <= k < clear ==> input[k] == v[k - i] && !stopMask[k - i];
      assert PlainUpTo(input, clear);
      if stop < 0 {
        i := i + lanes;
        continue;
      }
      var stopIdx := i + stop;
      assert stopMask[stop] && input[stopIdx] == v[stop];
      if input[stopIdx] == ESC {
        AsciiResult(input, stopIdx, output[..]);
        return DecodeResult(stopIdx, stopIdx, true);
      }
      NotAscii(input, stopIdx);
      consumed, decoded := DecodeAfterAscii(lanes, input, stopIdx, output);
      NonAsciiResult(input, consumed, decoded, output[..]);
      return DecodeResult(consumed, decoded, false);
    }
    while i < |input|
      invariant i <= |input| && PlainUpTo(input, i)
      invariant output[..] == old(output[..])
    {
      var b := input[i];
      if b == ESC {
        AsciiResult(input, i, output[..]);
        return DecodeResult(i, i, true);
      }
      if b >= 0x80 {
        NotAscii(input, i);
        consumed, decoded := DecodeAfterAscii(lanes, input, i, output);
        NonAsciiResult(input, consumed, decoded, output[..]);
        return DecodeResult(consumed, decoded, false);
      }
      i := i + 1;
    }
    AsciiResult(input, |input|, output[..]);
    return DecodeResult(|input|, |input|, true);
  }

  /** Neither an ESC nor a non-ASCII byte before index `n`. */
  ghost predicate PlainUpTo(input: bytes, n: nat)
    requires n <= |input|
  {
    forall k :: 0 <= k < n ==> input[k] != ESC && input[k] < 0x80
  }

  lemma AsciiResult(input: bytes, e: nat, output: seq<int>)
    requires e <= |input| <= |output| && PlainUpTo(input, e)
    requires e < |input| ==> input[e] == ESC
    ensures DecodesUntilEsc(input, DecodeResult(e, e, true), output)
  {
    hide Decode, Trim, FirstEsc, Run;
    FirstEscIsUnique(input, e);
    DecodeAsciiOnly(input[..e]);
    if e == |input| {
      assert input[..e] == input;
      RunAscii(input);
    }
  }

  lemma NonAsciiResult(input: bytes, consumed: nat, decoded: nat, output: seq<int>)
    requires consumed == Stop(input) && decoded == |Decode(input[..consumed])| <= |output|
    requires output[..decoded] == Decode(input[..consumed]) && !IsAscii(input[..FirstEsc(input)])
    ensures DecodesUntilEsc(input, DecodeResult(consumed, decoded, false), output)
  {
    hide Decode, Trim, FirstEsc, IsAscii;
  }

  lemma NotAscii(input: bytes, i: nat)
    requires i < |input| && input[i] >= 0x80 && PlainUpTo(input, i)
    ensures IsAscii(input[..i]) && ESC !in input[..i]
    ensures !IsAscii(input[..FirstEsc(input)])
  {
    var e := FirstEsc(input);
    assert e > i;
    assert input[..e][i] == input[i];
  }
}
