/** The decoder used without SIMD (src/simd/vt.zig). It has to agree with `Vt` on every input. */
module VtScalar {
  import opened Basics
  import opened Utf8
  import opened Utf8Properties
  import opened Simd
  import opened Vt

  /** How far decoding has come: `decode` is the input up to the first ESC. */
  ghost predicate Decoding(input: bytes, decode: bytes, offset: nat, output: seq<int>, count: nat, ascii: bool) {
    && decode == input[..FirstEsc(input)]
    && count <= offset <= |decode| && count <= |output|
    && count <= |Decode(decode)|
    && output[..count] == Decode(decode)[..count]
    && Decode(decode[offset..]) == Decode(decode)[count..]
    && (ascii <==> IsAscii(decode[..offset]))
    && (|decode| == |input| ==> Trim(decode) == offset + Trim(decode[offset..]))
  }

  method DecodeUTF8UntilControlSeqScalar(vectorLength: Option<nat>, input: bytes, output: array<int>)
    returns (r: DecodeResult)
    requires vectorLength.Some? ==> vectorLength.value > 0
    requires |input| <= output.Length
    modifies output
    ensures DecodesUntilEsc(input, r, output[..])
    ensures forall i :: |input| <= i < output.Length ==> output[i] == old(output[i])
  {
    hide Decode, Trim, FirstEsc, WellFormed, Matches, Subpart, Scalar, Decoding, DecodesUntilEsc;
    var idx := IndexOf(1, ESC, input);
    FirstEscIsUnique(input, idx);
    var decode := input[..idx];
    var offset: nat, count: nat, ascii := 0, 0, true;
    AtStart(input, decode, output[..]);
    while offset < |decode|
      invariant count <= offset <= |decode|
      invariant Decoding(input, decode, offset, output[..], count, ascii)
      invariant forall i :: |input| <= i < output.Length ==> output[i] == old(output[i])
      decreases |decode| - offset
    {
      var b0 := decode[offset];
      if b0 < 0x80 {
        offset, count := CopyAscii(vectorLength, input, decode, offset, output, count, ascii);
        continue;
      }
      var valid, cp := 1, REPLACEMENT;
      if !(0xC2 <= b0 <= 0xF4) { NotALead(decode[offset..]); }
      if 0xC2 <= b0 <= 0xF4 {
        var cut;
        valid, cp, cut := ReadSequence(decode[offset..]);
        if cut && |decode| == |input| {
          CutOff(input, decode, offset, output[..], count, ascii);
          return DecodeResult(offset, count, false);
        }
      }
      ghost var before := output[..];
      output[count] := cp;
      OneSubpart(input, decode, offset, before, count, ascii, valid, cp);
      assert output[..] == before[count := cp];
      ascii, count, offset := false, count + 1, offset + valid;
    }
    AtEnd(input, decode, output[..], count, ascii);
    return DecodeResult(offset, count, ascii);
  }

  /** Copies a run of ASCII, a vector at a time while whole vectors are ASCII, then byte by byte. */
  method CopyAscii(vectorLength: Option<nat>, input: bytes, decode: bytes, offset: nat,
                   output: array<int>, count: nat, ghost ascii: bool)
    returns (offset': nat, count': nat)
    requires vectorLength.Some? ==> vectorLength.value > 0
    requires |decode| <= |input| <= output.Length && count <= offset < |decode| && decode[offset] < 0x80
    requires Decoding(input, decode, offset, output[..], count, ascii)
    modifies output
    ensures offset < offset' <= |decode| && count' <= offset'
    ensures Decoding(input, decode, offset', output[..], count', ascii)
    ensures forall i :: |input| <= i < output.Length ==> output[i] == old(output[i])
  {
    hide Decode, Trim, FirstEsc, Decoding;
    offset', count' := offset, count;
    if vectorLength.Some? {
      var vl := vectorLength.value;
      while offset' + vl <= |decode|
        invariant offset <= offset' <= |decode| && count' <= offset'
        invariant Decoding(input, decode, offset', output[..], count', ascii)
        invariant forall i :: |input| <= i < output.Length ==> output[i] == old(output[i])
      {
        var v := decode[offset'..offset' + vl];
        if exists k :: 0 <= k < vl && v[k] >= 0x80 { break; }
        ghost var before := output[..];
        forall k | 0 <= k < vl { output[count' + k] := v[k]; }
        assert output[..][..count' + vl] == before[..count'] + v;
        RunOfAscii(input, decode, offset', before, count', ascii, v, output[..]);
        count', offset' := count' + vl, offset' + vl;
      }
    }
    while offset' < |decode|
      invariant offset <= offset' <= |decode| && count' <= offset'
      invariant offset' == offset ==> decode[offset] < 0x80
      invariant Decoding(input, decode, offset', output[..], count', ascii)
      invariant forall i :: |input| <= i < output.Length ==> output[i] == old(output[i])
    {
      var b := decode[offset'];
      if b >= 0x80 { break; }
      ghost var before := output[..];
      output[count'] := b;
      assert output[..][..count' + 1] == before[..count'] + decode[offset'..offset' + 1];
      RunOfAscii(input, decode, offset', before, count', ascii, decode[offset'..offset' + 1], output[..]);
      count', offset' := count' + 1, offset' + 1;
    }
  }

  /** Reads as much of one multi-byte sequence as is valid, collecting its value. `cut` says that
      the bytes ran out first. */
  method ReadSequence(s: bytes) returns (valid: nat, cp: int, cut: bool)
    requires s != [] && 0xC2 <= s[0] <= 0xF4
    ensures 1 <= valid <= |s| && valid == Subpart(s)
    ensures cut <==> Partial(s)
    ensures cp == if WellFormed(s[..valid]) then Scalar(s[..valid]) else REPLACEMENT
  {
    hide Decode;
    var b0 := s[0];
    var seqLen := if b0 < 0xE0 then 2 else if b0 < 0xF0 then 3 else 4;
    var cb1Lo: byte, cb1Hi: byte := 0x80, 0xBF;
    match b0 {
      case 0xE0 => cb1Lo := 0xA0;
      case 0xED => cb1Hi := 0x9F;
      case 0xF0 => cb1Lo := 0x90;
      case 0xF4 => cb1Hi := 0x8F;
      case _ =>
    }
    cp := b0 % (if seqLen == 2 then 0x20 else if seqLen == 3 then 0x10 else 0x08);
    valid, cut := 1, false;
    while valid < seqLen
      invariant 1 <= valid <= seqLen && valid <= |s| && Matches(s[..valid])
      invariant !cut && cp == Value(s[..valid])
    {
      if valid >= |s| {
        cut := true;
        break;
      }
      var cb := s[valid];
      var lo, hi := if valid == 1 then cb1Lo else 0x80, if valid == 1 then cb1Hi else 0xBF;
      assert Matches(s[..valid + 1]) <==> lo <= cb <= hi;
      if cb < lo || cb > hi { break; }
      assert s[..valid + 1][..valid] == s[..valid];
      cp := cp * 0x40 + cb % 0x40;
      valid := valid + 1;
    }
    SequenceRead(s, valid);
    if valid != seqLen { cp := REPLACEMENT; }
  }

  lemma SequenceRead(s: bytes, valid: nat)
    requires 1 <= valid <= |s| && valid <= 4 && Matches(s[..valid])
    requires valid < |s| ==> !Matches(s[..valid + 1])
    ensures valid == Subpart(s)
    ensures WellFormed(s[..valid]) <==> valid == SequenceLength(s[0])
    ensures Partial(s) <==> valid == |s| < SequenceLength(s[0])
  {
    DecodeAt(s, valid);
    MatchesIsInitial(s[..valid]);
    MatchesIsInitial(s);
    assert valid == |s| ==> s[..valid] == s;
  }

  lemma NotALead(s: bytes)
    requires s != [] && s[0] >= 0x80 && !(0xC2 <= s[0] <= 0xF4)
    ensures Subpart(s) == 1 && !WellFormed(s[..1]) && !Partial(s)
  {}

  // ----- Progress -----

  lemma AtStart(input: bytes, decode: bytes, output: seq<int>)
    requires decode == input[..FirstEsc(input)]
    ensures Decoding(input, decode, 0, output, 0, true)
  {
    assert decode[0..] == decode && output[..0] == [];
  }

  lemma RunOfAscii(input: bytes, decode: bytes, offset: nat, output: seq<int>, count: nat, ascii: bool,
                   v: bytes, output': seq<int>)
    requires Decoding(input, decode, offset, output, count, ascii)
    requires offset + |v| <= |decode| && v == decode[offset..offset + |v|] && IsAscii(v)
    requires count + |v| <= |output'| && output'[..count + |v|] == output[..count] + v
    ensures Decoding(input, decode, offset + |v|, output', count + |v|, ascii)
  {
    hide Decode, Trim, Run, FirstEsc, IsAscii;
    var rest, next := decode[offset..], decode[offset + |v|..];
    SliceOff(decode, offset, |v|);
    TrimAfterAscii(rest, |v|);
    AsciiAppend(decode[..offset], v);
    DecodeAscii(v, next);
    Advance(Decode(decode), count, v, Decode(next));
  }

  lemma SliceOff(s: bytes, offset: nat, n: nat)
    requires offset + n <= |s|
    ensures s[offset..] == s[offset..offset + n] + s[offset + n..]
    ensures s[offset..][..n] == s[offset..offset + n] && s[offset..][n..] == s[offset + n..]
    ensures s[..offset + n] == s[..offset] + s[offset..offset + n]
  {}

  lemma Advance(text: seq<int>, count: nat, v: seq<int>, next: seq<int>)
    requires count <= |text| && text[count..] == v + next
    ensures count + |v| <= |text| && text[..count + |v|] == text[..count] + v && text[count + |v|..] == next
  {
    assert text == text[..count] + (v + next);
  }

  lemma AsciiAppend(a: bytes, v: bytes)
    requires IsAscii(v)
    ensures IsAscii(a) <==> IsAscii(a + v)
  {
    assert forall i :: 0 <= i < |a| ==> (a + v)[i] == a[i];
  }

  lemma OneSubpart(input: bytes, decode: bytes, offset: nat, output: seq<int>, count: nat, ascii: bool, valid: nat,
                   cp: int)
    requires Decoding(input, decode, offset, output, count, ascii)
    requires offset < |decode| && decode[offset] >= 0x80 && |output| >= |input|
    requires valid == Subpart(decode[offset..])
    requires var w := decode[offset..][..valid]; cp == if WellFormed(w) then Scalar(w) else REPLACEMENT
    requires |decode| == |input| ==> !Partial(decode[offset..])
    ensures Decoding(input, decode, offset + valid, output[count := cp], count + 1, false)
  {
    hide Decode, Trim, FirstEsc, WellFormed, Matches, Subpart, Scalar;
    var rest := decode[offset..];
    assert rest[valid..] == decode[offset + valid..];
    DecodeUnfold(rest);
    if |decode| == |input| { TrimStep(rest); }
    var text := Decode(decode);
    assert text[count] == text[count..][0] == cp && text[count..][1..] == text[count + 1..];
    assert output[count := cp][..count + 1] == output[..count] + [cp];
    assert decode[..offset + valid][offset] == decode[offset];
  }

  lemma TailAfterSubpart(s: bytes, t: nat)
    requires s != [] && !Partial(s) && t < |s| && Partial(s[t..])
    ensures Subpart(s) <= t
  {
    hide WellFormed;
    PartialStartsWithLead(s[t..]);
    var n := Subpart(s);
    assert s[0..] == s && s[t..][0] == s[t];
    assert forall k :: 0 < k < n ==> s[..n][k] == s[k];
    hide Subpart;
  }

  /** Unless all of `s` is an incomplete sequence, its incomplete tail comes after its first subpart. */
  lemma TrimStep(s: bytes)
    requires s != [] && !Partial(s)
    ensures Trim(s) == Subpart(s) + Trim(s[Subpart(s)..])
  {
    hide Trim, Partial, Run, Subpart, WellFormed, Initial, IsContinuation;
    var n := Subpart(s);
    var rest := s[n..];
    var t, u := Trim(s), Trim(rest);
    if t < |s| {
      TailAfterSubpart(s, t);
      assert rest[t - n..] == s[t..];
      PartialIsTrimmed(rest, t - n);
    } else if u < |rest| {
      assert rest[u..] == s[n + u..];
      PartialIsTrimmed(s, n + u);
    }
  }

  lemma PartialIsTrimmed(s: bytes, t: nat)
    requires t < |s|
    ensures Partial(s[t..]) <==> t == Trim(s)
  {
    hide Trim, WellFormed, Initial;
    TrimIsExact(s, t);
    MatchesIsInitial(s[t..]);
  }

  lemma CutOff(input: bytes, decode: bytes, offset: nat, output: seq<int>, count: nat, ascii: bool)
    requires Decoding(input, decode, offset, output, count, ascii)
    requires offset < |decode| == |input| && Partial(decode[offset..])
    ensures DecodesUntilEsc(input, DecodeResult(offset, count, false), output)
  {
    hide Decode, Trim, FirstEsc, Run, Partial;
    var tail := decode[offset..];
    assert decode == input && tail[0] == decode[offset] && tail[0..] == tail;
    PartialStartsWithLead(tail);
    PartialIsTrimmed(tail, 0);
    DecodeCutOff(decode);
    DecodeEmitsScalarValues(decode[..offset]);
  }

  lemma AtEnd(input: bytes, decode: bytes, output: seq<int>, count: nat, ascii: bool)
    requires Decoding(input, decode, |decode|, output, count, ascii)
    ensures DecodesUntilEsc(input, DecodeResult(|decode|, count, ascii), output)
  {
    hide Decode, Trim, Run, FirstEsc;
    DecodeAsciiOnly([]);
    assert decode[..|decode|] == decode && decode[|decode|..] == [];
    if |decode| == |input| { assert decode == input; }
    if ascii { DecodeAsciiOnly(decode); }
  }
}
