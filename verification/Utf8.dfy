/** UTF-8 as sections 3.9 of the Unicode Standard (Table 3-7) and 4 of RFC 3629 define it, and
    two reference decoders: one that replaces maximal subparts, one that reads byte by byte. */
module Utf8 {
  import opened Basics

  const ESC: byte := 0x1B
  const REPLACEMENT: int := 0xFFFD

  predicate IsContinuation(b: byte) { 0x80 <= b <= 0xBF }

  /** Table 3-7, row by row. */
  predicate WellFormed(s: bytes) {
    match |s|
    case 1 => s[0] <= 0x7F
    case 2 => 0xC2 <= s[0] <= 0xDF && IsContinuation(s[1])
    case 3 =>
      && IsContinuation(s[2])
      && ( || (s[0] == 0xE0 && 0xA0 <= s[1] <= 0xBF)
           || (0xE1 <= s[0] <= 0xEC && IsContinuation(s[1]))
           || (s[0] == 0xED && 0x80 <= s[1] <= 0x9F)
           || (0xEE <= s[0] <= 0xEF && IsContinuation(s[1])))
    case 4 =>
      && IsContinuation(s[2]) && IsContinuation(s[3])
      && ( || (s[0] == 0xF0 && 0x90 <= s[1] <= 0xBF)
           || (0xF1 <= s[0] <= 0xF3 && IsContinuation(s[1]))
           || (s[0] == 0xF4 && 0x80 <= s[1] <= 0x8F))
    case _ => false
  }

  /** `s` is the start of (or all of) some well-formed sequence. */
  ghost predicate Initial(s: bytes) {
    exists w: bytes :: WellFormed(w) && s <= w
  }

  /** How many bytes a sequence led by `b` has; 0 when `b` leads none. */
  function SequenceLength(b: byte): nat {
    if b <= 0x7F then 1
    else if 0xC2 <= b <= 0xDF then 2
    else if 0xE0 <= b <= 0xEF then 3
    else if 0xF0 <= b <= 0xF4 then 4
    else 0
  }

  /** The range of the second byte of a sequence led by `b`. */
  function SecondLow(b: byte): byte {
    if b == 0xE0 then 0xA0 else if b == 0xF0 then 0x90 else 0x80
  }

  function SecondHigh(b: byte): byte {
    if b == 0xED then 0x9F else if b == 0xF4 then 0x8F else 0xBF
  }

  /** `Initial`, checked against the ranges of Table 3-7. */
  predicate Matches(s: bytes) {
    && 0 < |s| <= SequenceLength(s[0])
    && (|s| > 1 ==> SecondLow(s[0]) <= s[1] <= SecondHigh(s[0]))
    && (|s| > 2 ==> IsContinuation(s[2]))
    && (|s| > 3 ==> IsContinuation(s[3]))
  }

  lemma MatchesIsInitial(s: bytes)
    requires s != []
    ensures Matches(s) <==> Initial(s)
    ensures WellFormed(s) <==> Matches(s) && |s| == SequenceLength(s[0])
  {
    if Matches(s) {
      var low := SecondLow(s[0]);
      var w := match SequenceLength(s[0]) - |s|
        case 0 => s
        case 1 => if |s| == 1 then s + [low] else s + [0x80]
        case 2 => if |s| == 1 then s + [low, 0x80] else s + [0x80, 0x80]
        case _ => s + [low, 0x80, 0x80];
      assert WellFormed(w) && s <= w;
    }
  }

  /** A valid-so-far sequence that still lacks bytes. */
  predicate Partial(s: bytes) {
    Matches(s) && !WellFormed(s)
  }

  /** The payload bits of a lead byte. */
  function LeadBits(b: byte): int {
    if b < 0x80 then b as int
    else if b < 0xE0 then b as int - 0xC0
    else if b < 0xF0 then b as int - 0xE0
    else b as int - 0xF0
  }

  /** The value read so far: the lead's payload, then six bits a continuation byte (Table 3-6). */
  function Value(s: bytes): int
    requires s != []
  {
    if |s| == 1 then LeadBits(s[0]) else Value(s[..|s| - 1]) * 0x40 + (s[|s| - 1] as int - 0x80)
  }

  /** The scalar value a well-formed sequence encodes. */
  function Scalar(s: bytes): int
    requires WellFormed(s)
  {
    Value(s)
  }

  predicate IsScalarValue(v: int) {
    0 <= v <= 0xD7FF || 0xE000 <= v <= 0x10FFFF
  }

  type scalar = v: int | 0 <= v <= 0xD7FF || 0xE000 <= v <= 0x10FFFF

  /** A continuation byte carries the low six bits. */
  function Low(v: nat): byte { 0x80 + v % 0x40 }

  /** Section 3 of RFC 3629. */
  function Encode(v: scalar): bytes {
    if v <= 0x7F then [v]
    else if v <= 0x7FF then [0xC0 + v / 0x40, Low(v)]
    else if v <= 0xFFFF then [0xE0 + v / 0x40 / 0x40, Low(v / 0x40), Low(v)]
    else [0xF0 + v / 0x40 / 0x40 / 0x40, Low(v / 0x40 / 0x40), Low(v / 0x40), Low(v)]
  }

  lemma ValueUnrolled(s: bytes)
    requires s != []
    ensures |s| == 2 ==> Value(s) == LeadBits(s[0]) * 0x40 + s[1] as int - 0x80
    ensures |s| == 3 ==> Value(s) == (LeadBits(s[0]) * 0x40 + s[1] as int - 0x80) * 0x40 + s[2] as int - 0x80
    ensures |s| == 4 ==>
      Value(s) == ((LeadBits(s[0]) * 0x40 + s[1] as int - 0x80) * 0x40 + s[2] as int - 0x80) * 0x40 + s[3] as int - 0x80
  {
    if 2 <= |s| <= 4 { ValueUnrolled(s[..|s| - 1]); }
  }

  /** Division by 64 splits off the low six bits. */
  lemma SixBits(v: nat)
    ensures v == v / 0x40 * 0x40 + v % 0x40
    ensures v % 0x40 == Low(v) as int - 0x80
  {}

  lemma EncodeIsWellFormed(v: scalar)
    ensures WellFormed(Encode(v))
  {
    SixBits(v);
    SixBits(v / 0x40);
    SixBits(v / 0x40 / 0x40);
  }

  lemma EncodeInverts(v: scalar)
    ensures WellFormed(Encode(v)) && Scalar(Encode(v)) == v
  {
    EncodeIsWellFormed(v);
    hide WellFormed;
    ValueUnrolled(Encode(v));
    SixBits(v);
    SixBits(v / 0x40);
    SixBits(v / 0x40 / 0x40);
    hide Low, Value;
  }

  /** A value has one length, one lead and one sequence of continuation bytes. */
  lemma {:induction false} ValueDigits(s: bytes, t: bytes)
    requires |s| == |t| > 0 && Value(s) == Value(t)
    requires forall i :: 0 < i < |s| ==> IsContinuation(s[i]) && IsContinuation(t[i])
    ensures LeadBits(s[0]) == LeadBits(t[0]) && forall i :: 0 < i < |s| ==> s[i] == t[i]
  {
    hide LeadBits;
    if |s| > 1 {
      var n := |s| - 1;
      ValueDigits(s[..n], t[..n]);
      assert forall i :: 0 < i < n ==> s[..n][i] == s[i] && t[..n][i] == t[i];
    }
  }

  lemma ScalarRange(s: bytes)
    requires WellFormed(s)
    ensures match |s|
      case 1 => 0 <= Value(s) <= 0x7F
      case 2 => 0x80 <= Value(s) <= 0x7FF
      case 3 => 0x800 <= Value(s) <= 0xFFFF && !(0xD800 <= Value(s) <= 0xDFFF)
      case _ => 0x10000 <= Value(s) <= 0x10FFFF
  {
    ValueUnrolled(s);
    hide Value;
  }

  lemma ScalarInverts(s: bytes)
    requires WellFormed(s)
    ensures IsScalarValue(Scalar(s)) && Encode(Scalar(s)) == s
  {
    ScalarRange(s);
    var t := Encode(Scalar(s));
    EncodeInverts(Scalar(s));
    assert |s| == |t|;
    hide Encode, Value;
    ValueDigits(s, t);
    assert s[0] == t[0];
  }

  // ----- Decoding by maximal subparts -----

  /** "The longest initial subsequence that is the start of a well-formed sequence, or a single byte." */
  ghost predicate IsMaximalSubpart(s: bytes, n: nat) {
    && 1 <= n <= |s|
    && (n > 1 ==> Initial(s[..n]))
    && forall k :: n < k <= |s| ==> !Initial(s[..k])
  }

  /** The length of the maximal subpart `s` starts with. */
  function Subpart(s: bytes): (n: nat)
    requires s != []
    ensures 1 <= n <= |s| && n <= 4
    ensures n > 1 ==> Matches(s[..n])
    ensures n < |s| ==> !Matches(s[..n + 1])
  {
    if |s| == 1 || !Matches(s[..2]) then 1
    else if |s| == 2 || !Matches(s[..3]) then 2
    else if |s| == 3 || !Matches(s[..4]) then 3
    else 4
  }

  lemma MatchesPrefix(s: bytes, k: nat)
    requires Matches(s) && 0 < k <= |s|
    ensures Matches(s[..k]) && (k < |s| ==> !WellFormed(s[..k]))
  {}

  lemma PrefixesMatch(s: bytes)
    ensures forall n, k :: 0 < n <= k <= |s| && Matches(s[..k]) ==> Matches(s[..n])
    ensures forall n, k :: 0 < n < k <= |s| && Matches(s[..k]) ==> !WellFormed(s[..n])
  {
    forall n, k | 0 < n <= k <= |s| && Matches(s[..k])
      ensures Matches(s[..n]) && (n < k ==> !WellFormed(s[..n]))
    {
      MatchesPrefix(s[..k], n);
      assert s[..k][..n] == s[..n];
    }
  }

  lemma SubpartIsMaximal(s: bytes, n: nat)
    requires s != []
    ensures IsMaximalSubpart(s, n) <==> n == Subpart(s)
  {
    hide WellFormed, Initial, Matches;
    PrefixesMatch(s);
    forall k | 0 < k <= |s|
      ensures Initial(s[..k]) <==> Matches(s[..k])
    {
      MatchesIsInitial(s[..k]);
    }
  }

  /** Replaces every maximal subpart of an ill-formed subsequence by one U+FFFD. */
  function Decode(s: bytes): seq<int> {
    if s == [] then []
    else
      var n := Subpart(s);
      [if WellFormed(s[..n]) then Scalar(s[..n]) else REPLACEMENT] + Decode(s[n..])
  }

  /** One step of `Decode`, at a known subpart. */
  lemma DecodeAt(s: bytes, n: nat)
    requires 1 <= n <= |s|
    requires n > 1 ==> Matches(s[..n])
    requires n < |s| ==> !Matches(s[..n + 1])
    ensures n == Subpart(s)
    ensures Decode(s) == [if WellFormed(s[..n]) then Scalar(s[..n]) else REPLACEMENT] + Decode(s[n..])
  {
    hide WellFormed, Scalar;
    assert n > 1 ==> |s[..n]| <= 4;
    hide Matches;
    PrefixesMatch(s);
  }

  lemma DecodeWellFormed(w: bytes, rest: bytes)
    requires WellFormed(w)
    ensures Subpart(w + rest) == |w|
    ensures Decode(w + rest) == [Scalar(w)] + Decode(rest)
  {
    hide Scalar, Decode, Subpart, Initial;
    var s := w + rest;
    MatchesIsInitial(w);
    hide WellFormed;
    assert s[..|w|] == w && s[|w|..] == rest;
    assert rest != [] ==> s[..|w| + 1][0] == w[0];
    DecodeAt(s, |w|);
  }

  lemma DecodeBadByte(b: byte, rest: bytes)
    requires !Matches([b])
    ensures Decode([b] + rest) == [REPLACEMENT] + Decode(rest)
  {
    hide Scalar, Decode, Subpart, Initial;
    var s := [b] + rest;
    MatchesIsInitial([b]);
    hide WellFormed;
    assert s[..1] == [b] && s[1..] == rest;
    PrefixesMatch(s);
    DecodeAt(s, 1);
  }

  lemma DecodeBroken(p: bytes, b: byte, rest: bytes)
    requires Partial(p) && !Matches(p + [b])
    ensures Decode(p + [b] + rest) == [REPLACEMENT] + Decode([b] + rest)
  {
    hide Scalar, Decode, Subpart, WellFormed, Matches;
    var s := p + [b] + rest;
    assert s[..|p|] == p && s[|p|..] == [b] + rest && s[..|p| + 1] == p + [b];
    NonEmpty(p);
    DecodeAt(s, |p|);
  }

  lemma DecodePartial(p: bytes)
    requires Partial(p)
    ensures Decode(p) == [REPLACEMENT]
  {
    hide Scalar, Subpart, WellFormed, Matches;
    NonEmpty(p);
    assert p[..|p|] == p && p[|p|..] == [];
    DecodeAt(p, |p|);
  }

  lemma NonEmpty(p: bytes)
    requires Matches(p)
    ensures 1 <= |p| <= 4
  {}

  // ----- Decoding byte by byte -----

  /** What a decoder has produced, and the valid-so-far bytes it still holds. */
  datatype Progress = Progress(out: seq<int>, pending: bytes)

  predicate Pending(p: bytes) {
    p == [] || Partial(p)
  }

  function Step(pending: bytes, b: byte): (r: Progress)
    requires Pending(pending)
    ensures Pending(r.pending)
    decreases |pending|
  {
    var p := pending + [b];
    if WellFormed(p) then Progress([Scalar(p)], [])
    else if Matches(p) then Progress([], p)
    else if pending == [] then Progress([REPLACEMENT], [])
    else
      var r := Step([], b);
      Progress([REPLACEMENT] + r.out, r.pending)
  }

  function Run(pending: bytes, s: bytes): (r: Progress)
    requires Pending(pending)
    ensures Pending(r.pending)
    decreases |s|
  {
    if s == [] then Progress([], pending)
    else
      var first := Step(pending, s[0]);
      var rest := Run(first.pending, s[1..]);
      Progress(first.out + rest.out, rest.pending)
  }

  /** What is emitted for a held sequence that nothing will complete. */
  function Flush(pending: bytes): seq<int> {
    if pending == [] then [] else [REPLACEMENT]
  }

  lemma {:induction false} RunAppend(pending: bytes, a: bytes, b: bytes)
    requires Pending(pending)
    ensures Run(pending, a + b).out == Run(pending, a).out + Run(Run(pending, a).pending, b).out
    ensures Run(pending, a + b).pending == Run(Run(pending, a).pending, b).pending
    decreases |a|
  {
    hide Step, WellFormed, Matches;
    if a == [] {
      assert a + b == b;
    } else {
      assert (a + b)[0] == a[0] && (a + b)[1..] == a[1..] + b;
      RunAppend(Step(pending, a[0]).pending, a[1..], b);
    }
  }

  /** Bytes that form a held sequence are held. */
  lemma {:induction false} RunHolds(p: bytes)
    requires Pending(p)
    ensures Run([], p) == Progress([], p)
    decreases |p|
  {
    hide WellFormed, Matches, Value, Scalar;
    if p != [] {
      var q, b := p[..|p| - 1], [p[|p| - 1]];
      assert p == q + b;
      if q != [] { MatchesPrefix(p, |q|); }
      RunHolds(q);
      RunAppend([], q, b);
      assert b[1..] == [];
    }
  }

  /** Reading one more byte: what `Step` emits is what `Decode` emits next. */
  lemma {:induction false} DecodeStep(pending: bytes, b: byte, rest: bytes)
    requires Pending(pending)
    ensures Decode(pending + [b] + rest) == Step(pending, b).out + Decode(Step(pending, b).pending + rest)
    decreases |pending|
  {
    hide WellFormed, Matches, Value, Scalar, Decode;
    var p := pending + [b];
    assert [] + rest == rest;
    if WellFormed(p) {
      DecodeWellFormed(p, rest);
    } else if Matches(p) {
    } else if pending == [] {
      assert p == [b];
      DecodeBadByte(b, rest);
    } else {
      DecodeBroken(pending, b, rest);
      assert [] + [b] + rest == [b] + rest;
      DecodeStep([], b, rest);
    }
  }

  /** Both reference decoders agree. */
  lemma {:induction false} DecodeIsRun(pending: bytes, s: bytes)
    requires Pending(pending)
    ensures Decode(pending + s) == Run(pending, s).out + Flush(Run(pending, s).pending)
    decreases |s|
  {
    hide WellFormed, Matches, Partial, Value, Scalar, Step;
    if s == [] {
      assert pending + s == pending;
      if pending != [] {
        hide Decode;
        DecodePartial(pending);
      }
    } else {
      hide Decode;
      var r := Step(pending, s[0]);
      assert pending + s == pending + [s[0]] + s[1..];
      DecodeStep(pending, s[0], s[1..]);
      DecodeIsRun(r.pending, s[1..]);
    }
  }
}
