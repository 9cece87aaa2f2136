/** The two simdutf functions the decoder calls, as concrete code. */
module Simdutf {
  import opened Basics
  import opened Utf8
  import opened Utf8Properties

  /** `Success` counts the code points written, `Error` gives the byte position of the error. */
  datatype Result = Success(count: nat) | Error(position: nat)

  /** The bytes of the longest prefix that is a run of well-formed sequences. */
  function ValidPrefix(s: bytes): (v: nat)
    ensures v <= |s|
  {
    if s == [] then 0
    else
      var n := Subpart(s);
      if WellFormed(s[..n]) then n + ValidPrefix(s[n..]) else 0
  }

  function CountUtf8(s: bytes): nat {
    if s == [] then 0 else (if IsContinuation(s[0]) then 0 else 1) + CountUtf8(s[1..])
  }

  lemma {:induction false} CountContinuations(c: bytes, rest: bytes)
    requires forall i :: 0 <= i < |c| ==> IsContinuation(c[i])
    ensures CountUtf8(c + rest) == CountUtf8(rest)
  {
    if c == [] {
      assert c + rest == rest;
    } else {
      assert (c + rest)[1..] == c[1..] + rest;
      CountContinuations(c[1..], rest);
    }
  }

  lemma CountSequence(w: bytes, rest: bytes)
    requires WellFormed(w)
    ensures CountUtf8(w + rest) == 1 + CountUtf8(rest)
  {
    assert (w + rest)[1..] == w[1..] + rest;
    CountContinuations(w[1..], rest);
  }

  lemma ValidPrefixStep(w: bytes, t: bytes)
    requires WellFormed(w)
    ensures ValidPrefix(w + t) == |w| + ValidPrefix(t)
  {
    hide WellFormed, Subpart, Scalar, Decode;
    var s := w + t;
    assert s[..|w|] == w && s[|w|..] == t;
    DecodeWellFormed(w, t);
  }

  ghost predicate SplitsAtError(s: bytes) {
    var v := ValidPrefix(s);
    && Decode(s) == Decode(s[..v]) + Decode(s[v..])
    && CountUtf8(s[..v]) == |Decode(s[..v])|
    && (v < |s| ==> !WellFormed(s[v..][..Subpart(s[v..])]))
  }

  /** Decoding splits at the first error; up to there, counting bytes that are not continuations
      counts code points; and what starts at the error is not a complete sequence. */
  lemma {:induction false} SplitAtError(s: bytes)
    ensures SplitsAtError(s)
  {
    hide WellFormed, Matches, Scalar, Subpart;
    var v := ValidPrefix(s);
    if s == [] || v == 0 {
      assert s[..v] == [] && s[v..] == s;
    } else {
      var n := Subpart(s);
      SplitAtError(s[n..]);
      SplitAfterSequence(s[..n], s[n..]);
      assert s == s[..n] + s[n..];
    }
  }

  lemma SplitAfterSequence(w: bytes, t: bytes)
    requires WellFormed(w) && SplitsAtError(t)
    ensures SplitsAtError(w + t)
  {
    hide WellFormed, Subpart, Scalar, Decode, ValidPrefix, CountUtf8;
    var s, u := w + t, ValidPrefix(t);
    ValidPrefixStep(w, t);
    assert s[..|w| + u] == w + t[..u] && s[|w| + u..] == t[u..];
    DecodeWellFormed(w, t);
    DecodeWellFormed(w, t[..u]);
    CountSequence(w, t[..u]);
  }

  /** The sequence that starts at byte `i` of `s`, if it is well-formed. */
  function SequenceAt(s: bytes, i: nat): (r: bytes)
    requires i < |s|
    ensures i + |r| <= |s| && r == s[i..i + |r|]
    ensures r != [] ==> WellFormed(r)
    ensures r == [] ==> ValidPrefix(s[i..]) == 0
  {
    var w := s[i..][..Subpart(s[i..])];
    if WellFormed(w) then w else []
  }

  lemma ConvertStep(s: bytes, i: nat, w: bytes)
    requires w != [] && i + |w| <= |s| && w == s[i..i + |w|] && WellFormed(w)
    ensures var j := i + |w|; var v := i + ValidPrefix(s[i..]);
      v == j + ValidPrefix(s[j..]) <= |s| && Decode(s[i..v]) == [Scalar(w)] + Decode(s[j..v])
  {
    hide WellFormed, Subpart, Decode, ValidPrefix, CountUtf8;
    var j := i + |w|;
    assert s[i..] == w + s[j..];
    ValidPrefixStep(w, s[j..]);
    var v := i + ValidPrefix(s[i..]);
    assert s[i..v] == w + s[j..v];
    DecodeWellFormed(w, s[j..v]);
  }

  /** Decodes all of `input`, or up to its first error, into `output` from `at` on. */
  method ConvertWithErrors(input: bytes, output: array<int>, at: nat) returns (r: Result)
    requires at + |input| <= output.Length
    modifies output
    ensures forall i :: 0 <= i < output.Length && !(at <= i < at + |input|) ==> output[i] == old(output[i])
    ensures r.Success? ==>
      && ValidPrefix(input) == |input|
      && r.count == |Decode(input)| <= |input|
      && output[at..at + r.count] == Decode(input)
    ensures r.Error? ==>
      && r.position == ValidPrefix(input) < |input|
      && |Decode(input[..r.position])| <= r.position
      && output[at..at + |Decode(input[..r.position])|] == Decode(input[..r.position])
  {
    hide WellFormed, Subpart, SequenceAt, Scalar, Decode, ValidPrefix;
    var i, n := 0, 0;
    ghost var v := ValidPrefix(input);
    while i < |input|
      invariant n <= i <= v <= |input| && v == i + ValidPrefix(input[i..])
      invariant output[at..at + n] + Decode(input[i..v]) == Decode(input[..v])
      invariant forall i :: 0 <= i < output.Length && !(at <= i < at + |input|) ==> output[i] == old(output[i])
    {
      var w := SequenceAt(input, i);
      if w == [] { break; }
      ConvertStep(input, i, w);
      ghost var written := output[at..at + n];
      output[at + n] := Scalar(w);
      assert output[at..at + (n + 1)] == written + [Scalar(w)];
      i, n := i + |w|, n + 1;
    }
    DecodeAsciiOnly(input[i..i]);
    assert v == i && output[at..at + n] == Decode(input[..v]);
    assert input[..|input|] == input;
    r := if i == |input| then Success(n) else Error(i);
  }
}
