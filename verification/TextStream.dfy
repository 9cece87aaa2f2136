/** How terminal input is cut up and decoded (src/terminal/stream.zig): slices arrive with any
    boundaries, a byte-wise decoder carries an incomplete sequence from one slice to the next, and
    the bulk decoder of `Vt` does the rest, 4096 bytes at a time at most. */
module TextStream {
  import opened Basics
  import opened Utf8
  import opened Utf8Properties
  import opened Simd
  import opened Utf8Dfa
  import opened Vt

  /** `text` is every code point passed on so far; `ground` is lost at the first ESC. */
  datatype State = State(text: seq<int>, pending: bytes, ground: bool)

  const INITIAL := State([], [], true)

  /** What feeding `s` has to do, whichever way it is cut. */
  function Feed(st: State, s: bytes): (r: State)
    requires Pending(st.pending)
    ensures Pending(r.pending)
  {
    var e := FirstEsc(s);
    if !st.ground then st
    else if e == |s| then State(st.text + Run(st.pending, s).out, Run(st.pending, s).pending, true)
    else
      var r := Run(st.pending, s[..e]);
      State(st.text + r.out + Flush(r.pending), [], false)
  }

  lemma StepEsc(pending: bytes)
    requires Pending(pending)
    ensures Step(pending, ESC) == Progress(Flush(pending) + [ESC as int], [])
  {
    StepAtEsc([]);
    if pending != [] {
      assert !Matches(pending + [ESC]);
    }
  }

  lemma StepAtEsc(p: bytes)
    requires p == []
    ensures Step(p, ESC) == Progress([ESC as int], [])
  {}

  lemma FirstEscAppend(a: bytes, b: bytes)
    ensures FirstEsc(a + b) == if FirstEsc(a) < |a| then FirstEsc(a) else |a| + FirstEsc(b)
  {
    var e := if FirstEsc(a) < |a| then FirstEsc(a) else |a| + FirstEsc(b);
    assert forall i :: 0 <= i < e ==> (a + b)[..e][i] == if i < |a| then a[i] else b[i - |a|];
    FirstEscIsUnique(a + b, e);
  }

  /** Feeding two slices is feeding their concatenation. */
  lemma FeedAppend(st: State, a: bytes, b: bytes)
    requires Pending(st.pending)
    ensures Feed(Feed(st, a), b) == Feed(st, a + b)
  {
    hide Run, FirstEsc, Pending;
    if !st.ground { return; }
    FirstEscAppend(a, b);
    if FirstEsc(a) < |a| {
      assert (a + b)[..FirstEsc(a)] == a[..FirstEsc(a)];
    } else if FirstEsc(b) < |b| {
      var c := b[..FirstEsc(b)];
      assert (a + b)[..FirstEsc(a + b)] == a + c;
      RunAppend(st.pending, a, c);
    } else {
      RunAppend(st.pending, a, b);
    }
  }

  function Concat(slices: seq<bytes>): bytes {
    if slices == [] then [] else slices[0] + Concat(slices[1..])
  }

  function FeedSlices(st: State, slices: seq<bytes>): (r: State)
    requires Pending(st.pending)
    ensures Pending(r.pending)
    decreases |slices|
  {
    if slices == [] then st else FeedSlices(Feed(st, slices[0]), slices[1..])
  }

  lemma {:induction false} FeedSlicesIsFeed(st: State, slices: seq<bytes>)
    requires Pending(st.pending)
    ensures FeedSlices(st, slices) == Feed(st, Concat(slices))
    decreases |slices|
  {
    if slices != [] {
      FeedSlicesIsFeed(Feed(st, slices[0]), slices[1..]);
      FeedAppend(st, slices[0], Concat(slices[1..]));
    }
  }

  /** Cutting never changes the result: for every stream and every way of slicing it, the text is
      the decoding of what precedes the first ESC, or, when there is none, of all but an incomplete
      tail, and then exactly that tail is still held. */
  lemma SlicingIsInvisible(slices: seq<bytes>)
    ensures var whole := Concat(slices); var r := FeedSlices(INITIAL, slices);
      && r.text == Decode(whole[..Stop(whole)])
      && (r.ground <==> 0x1B !in whole)
      && r.pending == if r.ground then whole[Trim(whole)..] else []
  {
    hide Run, Decode, Trim, FeedSlices, Concat, Flush;
    var whole := Concat(slices);
    var e := FirstEsc(whole);
    FeedSlicesIsFeed(INITIAL, slices);
    RunIsDecodeOfTrimmed(whole);
    DecodeIsRun([], whole[..e]);
    assert [] + whole[..e] == whole[..e];
  }

  /** Decoding chunk after chunk by handing the unconsumed bytes of each call to the next one. */
  function Carrying(carry: bytes, chunks: seq<bytes>): Progress
    decreases |chunks|
  {
    if chunks == [] then Progress([], carry)
    else
      var input := carry + chunks[0];
      var rest := Carrying(input[Stop(input)..], chunks[1..]);
      Progress(Decode(input[..Stop(input)]) + rest.out, rest.pending)
  }

  lemma {:induction false} CarryingIsRun(carry: bytes, chunks: seq<bytes>)
    requires Pending(carry) && ESC !in carry && ESC !in Concat(chunks)
    ensures Carrying(carry, chunks) == Run(carry, Concat(chunks))
    decreases |chunks|
  {
    hide Decode, Trim, Step, Partial;
    if chunks == [] {
      assert Run(carry, []) == Progress([], carry);
    } else {
      var chunk, rest := chunks[0], Concat(chunks[1..]);
      var input := carry + chunk;
      assert Concat(chunks) == chunk + rest;
      RunHolds(carry);
      RunAppend([], carry, chunk);
      RunIsDecodeOfTrimmed(input);
      assert Run([], input) == Run(carry, chunk);
      assert FirstEsc(input) == |input| && Stop(input) == Trim(input);
      CarryingIsRun(input[Stop(input)..], chunks[1..]);
      RunAppend(carry, chunk, rest);
    }
  }

  /** However a stream without ESC is cut, decoding it chunk by chunk gives the decoding of all but its
      incomplete tail, and carries exactly that tail. */
  lemma ChunkingIsInvisible(chunks: seq<bytes>)
    requires 0x1B !in Concat(chunks)
    ensures var whole := Concat(chunks);
      Carrying([], chunks) == Progress(Decode(whole[..Trim(whole)]), whole[Trim(whole)..])
  {
    hide Run, Decode, Trim;
    CarryingIsRun([], chunks);
    RunIsDecodeOfTrimmed(Concat(chunks));
  }

  /** The part of the terminal stream that turns bytes into text. */
  class Stream {
    const decoder: UTF8Decoder
    const cpBuf: array<int>
    const lanes: nat
    var text: seq<int>
    var ground: bool

    ghost predicate Valid()
      reads this, decoder
    {
      decoder.Valid() && IsLaneCount(lanes) && cpBuf.Length == 4096 && (!ground ==> decoder.pending == [])
    }

    ghost function Abstract(): State
      reads this, decoder
    {
      State(text, decoder.pending, ground)
    }

    constructor (lanes: nat)
      requires IsLaneCount(lanes)
      ensures Valid() && Abstract() == INITIAL
      ensures fresh(decoder) && fresh(cpBuf)
    {
      decoder := new UTF8Decoder();
      cpBuf := new int[4096];
      this.lanes, text, ground := lanes, [], true;
    }

    /** An ESC ends the text; everything else is passed on. */
    method HandleCodepoint(c: int)
      modifies this
      ensures if c == ESC then text == old(text) && !ground else text == old(text) + [c] && ground == old(ground)
    {
      if c == ESC {
        ground := false;
      } else {
        text := text + [c];
      }
    }

    method NextUtf8(c: byte)
      requires Valid() && ground
      modifies this, decoder
      ensures Valid() && Abstract() == Feed(old(Abstract()), [c])
    {
      FeedByte(Abstract(), c);
      var codepoint, consumed := decoder.Next(c);
      if codepoint.Some? { HandleCodepoint(codepoint.value); }
      if !consumed {
        codepoint, consumed := decoder.Next(c);
        assert consumed;
        if codepoint.Some? { HandleCodepoint(codepoint.value); }
      }
    }

    /** Feeds bytes one at a time while the decoder holds an incomplete sequence, the rest in bulk.
        Returns at the end of `input` or behind the first ESC, where control sequences take over. */
    method NextSliceCapped(input: bytes) returns (offset: nat)
      requires Valid() && ground && |input| <= cpBuf.Length
      modifies this, decoder, cpBuf
      ensures Valid() && Abstract() == Feed(old(Abstract()), input)
      ensures offset == if ground then |input| else FirstEsc(input) + 1
    {
      hide Feed, FirstEsc;
      ghost var st := Abstract();
      offset := 0;
      FeedNothing(st);
      while decoder.state != ACCEPT_STATE
        invariant 0 <= offset <= |input| && Valid() && Abstract() == Feed(st, input[..offset])
        invariant offset == if ground then offset else FirstEsc(input) + 1
        decreases |input| - offset
      {
        if offset >= |input| {
          assert input[..offset] == input;
          FeedGround(st, input, offset);
          return;
        }
        FeedAppend(st, input[..offset], [input[offset]]);
        assert input[..offset + 1] == input[..offset] + [input[offset]];
        FeedGround(st, input, offset);
        FeedGround(st, input, offset + 1);
        NextUtf8(input[offset]);
        offset := offset + 1;
      }
      assert input == input[..offset] + input[offset..];
      FeedAppend(st, input[..offset], input[offset..]);
      FeedGround(st, input, offset);
      if !ground || offset >= |input| {
        FeedNothing(Abstract());
        return;
      }
      FirstEscAppend(input[..offset], input[offset..]);
      var consumed := NextInBulk(input[offset..]);
      offset := offset + consumed;
    }

    /** What `NextSliceCapped` does once the decoder holds nothing. */
    method NextInBulk(rest: bytes) returns (offset: nat)
      requires Valid() && ground && decoder.pending == [] && rest != [] && |rest| <= cpBuf.Length
      modifies this, decoder, cpBuf
      ensures Valid() && Abstract() == Feed(old(Abstract()), rest)
      ensures offset == if ground then |rest| else FirstEsc(rest) + 1
    {
      hide Feed, FirstEsc, Stop, Decode;
      ghost var st := Abstract();
      FeedInBulk(st, rest);
      if rest[0] == ESC {
        FeedEscFirst(st, rest);
        ground := false;
        return 1;
      }
      var res := DecodeUTF8UntilControlSeq(lanes, rest, cpBuf);
      if res.ascii {
        text := text + rest[..res.consumed];
      } else {
        text := text + cpBuf[..res.decoded];
      }
      offset := res.consumed;
      if offset >= |rest| { return; }
      if rest[offset] != ESC {
        NextOneByOne(rest[offset..]);
        return |rest|;
      }
      ground := false;
      return offset + 1;
    }

    /** An incomplete tail goes to the decoder byte by byte. */
    method NextOneByOne(rem: bytes)
      requires Valid() && ground && decoder.pending == [] && rem != [] && Partial(rem)
      modifies this, decoder
      ensures Valid() && Abstract() == State(old(text), rem, true)
    {
      hide Feed, Matches, WellFormed;
      ghost var now := Abstract();
      FeedNothing(now);
      var i := 0;
      while i < |rem|
        invariant 0 <= i <= |rem| && Valid() && ground && Abstract() == Feed(now, rem[..i])
      {
        assert rem[..i + 1] == rem[..i] + [rem[i]];
        FeedAppend(now, rem[..i], [rem[i]]);
        FeedTail(now, rem, i + 1);
        NextUtf8(rem[i]);
        i := i + 1;
      }
      assert rem[..i] == rem;
      FeedTail(now, rem, i);
    }

    /** A whole slice, in pieces that fit the buffer. */
    method NextSlice(input: bytes) returns (offset: nat)
      requires Valid() && ground
      modifies this, decoder, cpBuf
      ensures Valid() && Abstract() == Feed(old(Abstract()), input)
      ensures offset == if ground then |input| else FirstEsc(input) + 1
    {
      hide Feed, FirstEsc;
      ghost var st := Abstract();
      FeedNothing(st);
      offset := 0;
      while true
        invariant 0 <= offset <= |input| && Valid() && ground && Abstract() == Feed(st, input[..offset])
        invariant offset <= FirstEsc(input)
        decreases |input| - offset
      {
        var len := if cpBuf.Length < |input| - offset then cpBuf.Length else |input| - offset;
        var piece, next := input[offset..offset + len], offset + len;
        assert input[..next] == input[..offset] + piece && input == input[..next] + input[next..];
        FeedAppend(st, input[..offset], piece);
        FeedAppend(st, input[..next], input[next..]);
        FirstEscAppend(input[..offset], piece);
        FirstEscAppend(input[..next], input[next..]);
        FeedGround(st, input, offset);
        FeedGround(st, input, next);
        var consumed := NextSliceCapped(piece);
        if !ground {
          FeedNothing(Abstract());
          return offset + consumed;
        }
        offset := next;
        if offset >= |input| {
          assert input[..offset] == input;
          return;
        }
      }
    }
  }

  // ----- Feeding, piece by piece -----

  lemma FeedNothing(st: State)
    requires Pending(st.pending)
    ensures Feed(st, []) == st
    ensures !st.ground ==> forall s :: Feed(st, s) == st
  {}

  lemma FeedGround(st: State, s: bytes, n: nat)
    requires Pending(st.pending) && n <= |s| && st.ground
    ensures Feed(st, s[..n]).ground <==> n <= FirstEsc(s)
    ensures FirstEsc(s) < n ==> Feed(st, s[..n]) == Feed(st, s)
  {
    assert s == s[..n] + s[n..];
    FirstEscAppend(s[..n], s[n..]);
    FeedAppend(st, s[..n], s[n..]);
  }

  /** From a decoder that holds nothing, `Decode` and `Stop` say what feeding does. */
  lemma FeedInBulk(st: State, s: bytes)
    requires st.pending == [] && st.ground
    ensures var text := st.text + Decode(s[..Stop(s)]);
      Feed(st, s) == if Stop(s) == FirstEsc(s) < |s| then State(text, [], false) else State(text, s[Stop(s)..], true)
  {
    hide Run, Decode, Trim;
    var a := s[..FirstEsc(s)];
    RunIsDecodeOfTrimmed(s);
    DecodeIsRun([], a);
    assert [] + a == a;
  }

  lemma FeedEscFirst(st: State, s: bytes)
    requires st.pending == [] && st.ground && s != [] && s[0] == ESC
    ensures Feed(st, s) == State(st.text, [], false) && FirstEsc(s) == 0
  {
    assert s[..0] == [];
  }

  /** The bytes of an incomplete tail are held, one after the other. */
  lemma FeedTail(st: State, tail: bytes, n: nat)
    requires st.pending == [] && st.ground && Partial(tail) && 0 < n <= |tail|
    ensures Feed(st, tail[..n]) == State(st.text, tail[..n], true)
  {
    var p := tail[..n];
    MatchesPrefix(tail, n);
    assert p == tail || Partial(p);
    RunHolds(p);
    FirstEscIsUnique(p, n);
  }

  lemma FeedByte(st: State, c: byte)
    requires Pending(st.pending) && st.ground
    ensures var r := Step(st.pending, c);
      Feed(st, [c]) ==
        if c == ESC then State(st.text + Flush(st.pending), [], false)
        else State(st.text + r.out, r.pending, true)
    ensures c == ESC ==> Step(st.pending, c) == Progress(Flush(st.pending) + [ESC as int], [])
    ensures c != ESC ==> ESC as int !in Step(st.pending, c).out
  {
    StepEsc(st.pending);
    if c == ESC {
      assert [c][..0] == [];
    } else {
      NoEsc(st.pending, c);
      var r := Step(st.pending, c);
      FirstEscIsUnique([c], 1);
      assert [c][1..] == [] && Run(r.pending, [c][1..]) == Progress([], r.pending);
      assert Run(st.pending, [c]) == Progress(r.out + [], r.pending);
    }
  }

  lemma NoEsc(pending: bytes, c: byte)
    requires Pending(pending) && c != ESC
    ensures ESC as int !in Step(pending, c).out
    decreases |pending|
  {
    var p := pending + [c];
    if WellFormed(p) {
      ScalarInverts(p);
    } else if !Matches(p) && pending != [] {
      NoEsc([], c);
    }
  }
}
