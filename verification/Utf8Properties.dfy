/** What the reference decoders of `Utf8` guarantee: scalar values only, round trips, ASCII as it
    is, and where a stream can be cut. */
module Utf8Properties {
  import opened Basics
  import opened Utf8

  // ----- Output -----

  lemma {:induction false} DecodeEmitsScalarValues(s: bytes)
    ensures |Decode(s)| <= |s|
    ensures forall i :: 0 <= i < |Decode(s)| ==> IsScalarValue(Decode(s)[i])
  {
    hide WellFormed, Matches, Scalar;
    if s != [] {
      var n := Subpart(s);
      if WellFormed(s[..n]) { ScalarInverts(s[..n]); }
      DecodeEmitsScalarValues(s[n..]);
    }
  }

  function EncodeAll(vs: seq<scalar>): bytes {
    if vs == [] then [] else Encode(vs[0]) + EncodeAll(vs[1..])
  }

  /** Well-formed text comes back unchanged. */
  lemma {:induction false} DecodeInvertsEncode(vs: seq<scalar>)
    ensures Decode(EncodeAll(vs)) == vs
  {
    hide WellFormed, Scalar, Encode;
    if vs != [] {
      var w, rest := Encode(vs[0]), EncodeAll(vs[1..]);
      EncodeInverts(vs[0]);
      DecodeWellFormed(w, rest);
      DecodeInvertsEncode(vs[1..]);
    }
  }

  predicate IsAscii(s: bytes) {
    forall i :: 0 <= i < |s| ==> s[i] < 0x80
  }

  lemma {:induction false} DecodeAscii(a: bytes, rest: bytes)
    requires IsAscii(a)
    ensures Decode(a + rest) == a + Decode(rest)
  {
    hide Decode;
    if a == [] {
      assert a + rest == rest;
    } else {
      assert a + rest == [a[0]] + (a[1..] + rest);
      DecodeWellFormed([a[0]], a[1..] + rest);
      DecodeAscii(a[1..], rest);
    }
  }

  lemma DecodeAsciiOnly(a: bytes)
    requires IsAscii(a)
    ensures Decode(a) == a
  {
    DecodeAscii(a, []);
    assert a + [] == a;
  }

  // ----- Incomplete tails -----

  /** How much of `s` can be decoded before its valid-but-incomplete tail, if it has one. */
  function Trim(s: bytes): (t: nat)
    ensures t <= |s| && s[t..] == Run([], s).pending
  {
    PendingIsSuffix(s);
    |s| - |Run([], s).pending|
  }

  lemma PendingIsSuffix(s: bytes)
    ensures var q := Run([], s).pending; |q| <= |s| && s[|s| - |q|..] == q
  {
    hide Run;
    var x := PendingIsTail([], s);
    assert [] + s == s;
  }

  /** What is held is a tail of what was read; `x` is the part before it. */
  lemma {:induction false} PendingIsTail(p: bytes, s: bytes) returns (x: bytes)
    requires Pending(p)
    ensures x + Run(p, s).pending == p + s
    decreases |s|
  {
    hide Step;
    if s == [] {
      x := [];
    } else {
      var y := StepTail(p, s[0]);
      var z := PendingIsTail(Step(p, s[0]).pending, s[1..]);
      x := y + z;
      Chain(p, [s[0]], s[1..], y, Step(p, s[0]).pending, z, Run(p, s).pending);
      assert [s[0]] + s[1..] == s;
    }
  }

  lemma Chain(p: bytes, b: bytes, s: bytes, y: bytes, p': bytes, z: bytes, q: bytes)
    requires y + p' == p + b && z + q == p' + s
    ensures y + z + q == p + (b + s)
  {
    assert y + z + q == y + (p' + s) == (y + p') + s;
  }

  lemma {:induction false} StepTail(p: bytes, b: byte) returns (x: bytes)
    requires Pending(p)
    ensures x + Step(p, b).pending == p + [b]
    decreases |p|
  {
    hide WellFormed, Matches, Value, Scalar;
    assert [] + [b] == [b] && [b] + [] == [b] && p + [b] + [] == p + [b];
    if p == [] {
      x := if Step(p, b).pending == [] then [b] else [];
    } else if WellFormed(p + [b]) {
      x := p + [b];
    } else if Matches(p + [b]) {
      x := [];
    } else {
      x := StepTail([], b);
      assert p + (x + Step([], b).pending) == p + ([] + [b]);
      x := p + x;
    }
  }

  lemma LeadBreaks(p: bytes, b: byte)
    requires Partial(p) && !IsContinuation(b)
    ensures !Matches(p + [b]) && !WellFormed(p + [b])
  {}

  lemma PartialStartsWithLead(p: bytes)
    requires Partial(p)
    ensures 0xC2 <= p[0] <= 0xF4 && |p| <= 3 && forall i :: 0 < i < |p| ==> IsContinuation(p[i])
  {}

  /** A lead byte ends whatever was held; the sequence it starts is then held itself. */
  lemma RunLead(p: bytes, tail: bytes)
    requires Pending(p) && Partial(tail)
    ensures Run(p, tail) == Progress(Flush(p), tail)
  {
    RunHolds(tail);
    PartialStartsWithLead(tail);
    if p != [] {
      LeadBreaks(p, tail[0]);
      hide WellFormed, Matches, Value, Scalar;
      assert Step(p, tail[0]).pending == Step([], tail[0]).pending;
    }
  }

  /** The byte-at-a-time decoder, in terms of `Decode` and `Trim`. */
  lemma RunIsDecodeOfTrimmed(s: bytes)
    ensures Run([], s) == Progress(Decode(s[..Trim(s)]), s[Trim(s)..])
  {
    hide Decode, Run, Partial;
    var p, a := Run([], s).pending, s[..Trim(s)];
    assert s == a + p && [] + a == a;
    DecodeIsRun([], a);
    if p == [] {
      assert a == s;
    } else {
      RunAppend([], a, p);
      RunLead(Run([], a).pending, p);
    }
  }

  /** Trimming is exact: what is cut off is precisely a proper initial part of some well-formed
      sequence, it starts at the last byte that is not a continuation, and has at most 3 bytes. */
  lemma TrimIsExact(s: bytes, t: nat)
    requires t < |s|
    ensures t == Trim(s) <==> Initial(s[t..]) && !WellFormed(s[t..])
    ensures t == Trim(s) ==>
      |s| - t <= 3 && !IsContinuation(s[t]) && forall i :: t < i < |s| ==> IsContinuation(s[i])
  {
    hide WellFormed, Initial, Run;
    var a, tail := s[..t], s[t..];
    MatchesIsInitial(tail);
    if Partial(tail) {
      assert s == a + tail;
      RunAppend([], a, tail);
      RunLead(Run([], a).pending, tail);
      assert tail[0] == s[t] && forall i :: t < i < |s| ==> s[i] == tail[i - t];
    }
  }

  /** A tail cut off decodes to one U+FFFD. */
  lemma DecodeCutOff(s: bytes)
    requires Trim(s) < |s|
    ensures Decode(s) == Decode(s[..Trim(s)]) + [REPLACEMENT] && Decode(s[Trim(s)..]) == [REPLACEMENT]
  {
    hide Decode, Run, Trim, Partial;
    RunIsDecodeOfTrimmed(s);
    DecodeIsRun([], s);
    assert [] + s == s;
    DecodePartial(s[Trim(s)..]);
  }

  lemma {:induction false} RunAscii(a: bytes)
    requires IsAscii(a)
    ensures Run([], a).pending == []
  {
    hide Matches;
    if a != [] { RunAscii(a[1..]); }
  }

  /** Trimming what follows an ASCII prefix is trimming the whole. */
  lemma TrimAfterAscii(input: bytes, base: nat)
    requires base <= |input| && IsAscii(input[..base])
    ensures base + Trim(input[base..]) == Trim(input)
  {
    hide Run;
    RunAscii(input[..base]);
    RunAppend([], input[..base], input[base..]);
    assert input == input[..base] + input[base..];
  }

  // ----- ESC -----

  /** The index of the first ESC, or the length. */
  function FirstEsc(s: bytes): (e: nat)
    ensures e <= |s|
    ensures e < |s| ==> s[e] == ESC
    ensures forall i :: 0 <= i < e ==> s[i] != ESC
  {
    if s == [] || s[0] == ESC then 0 else 1 + FirstEsc(s[1..])
  }

  lemma FirstEscIsUnique(s: bytes, e: nat)
    requires e <= |s| && ESC !in s[..e]
    requires e < |s| ==> s[e] == ESC
    ensures FirstEsc(s) == e
  {
    var f := FirstEsc(s);
    assert forall i :: 0 <= i < e ==> s[..e][i] == s[i];
  }

  // ----- The same with numbers -----

  /** Section 3 of RFC 3629. */
  ghost function BytesOf(v: nat): seq<int> {
    if v < 0x80 then [v]
    else if v < 0x800 then [0xC0 + v / 64, 0x80 + v % 64]
    else if v < 0x10000 then [0xE0 + v / 4096, 0x80 + v / 64 % 64, 0x80 + v % 64]
    else [0xF0 + v / 262144, 0x80 + v / 4096 % 64, 0x80 + v / 64 % 64, 0x80 + v % 64]
  }

  /** `s` is the sequence of the scalar value `v`. */
  ghost predicate IsSequenceOf(s: bytes, v: nat) {
    v <= 0x10FFFF && !(0xD800 <= v <= 0xDFFF) && s == BytesOf(v)
  }

  lemma BytesAreEncoding(v: scalar)
    ensures BytesOf(v) == Encode(v)
  {
    assert v / 64 / 64 == v / 4096 && v / 64 / 64 / 64 == v / 262144;
  }

  /** A sequence is well-formed exactly if it is that of a scalar value, which then is what it stands for. */
  lemma WellFormedIsSequence(s: bytes)
    ensures WellFormed(s) <==> exists v: nat :: IsSequenceOf(s, v)
    ensures forall v: nat :: IsSequenceOf(s, v) ==> Scalar(s) == v
  {
    hide WellFormed, Scalar, BytesOf, Encode;
    if WellFormed(s) {
      ScalarInverts(s);
      BytesAreEncoding(Scalar(s));
      assert IsSequenceOf(s, Scalar(s));
    }
    forall v: nat | IsSequenceOf(s, v) ensures WellFormed(s) && Scalar(s) == v {
      BytesAreEncoding(v);
      EncodeInverts(v);
    }
  }

  /** What decoding does with the longest start of a sequence, or else the first byte: a whole sequence gives its
      scalar value, anything else 0xFFFD. */
  lemma DecodeInNumbers(s: bytes, n: nat)
    requires s != [] && IsMaximalSubpart(s, n)
    ensures forall v: nat :: IsSequenceOf(s[..n], v) ==> Decode(s) == [v] + Decode(s[n..])
    ensures (forall v: nat :: !IsSequenceOf(s[..n], v)) ==> Decode(s) == [0xFFFD] + Decode(s[n..])
  {
    SubpartIsMaximal(s, n);
    WellFormedIsSequence(s[..n]);
    DecodeFirst(s, n);
  }

  lemma DecodeFirst(s: bytes, n: nat)
    requires s != [] && n == Subpart(s)
    ensures Decode(s) == [if WellFormed(s[..n]) then Scalar(s[..n]) else 0xFFFD] + Decode(s[n..])
  {
    hide WellFormed, Scalar, Subpart;
  }

  /** A byte that no sequence has. */
  lemma LoneByte()
    ensures Decode([0xFF]) == [0xFFFD]
  {
    assert [0xFF][..1] == [0xFF] && [0xFF][1..] == [];
    assert Decode([]) == [];
    DecodeFirst([0xFF], 1);
  }
}
