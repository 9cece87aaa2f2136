/** The framed record codec of tmuxx/conformance/native_wire.py. */
module NativeWire {
  import opened Basics

  const BLOCK_BYTES: nat := 256 * 1024
  const RECORD_BYTES: nat := 64 * 1024 * 1024
  const HEADER_BYTES: nat := 16
  const MAGIC: bytes := [0x54, 0x4D, 0x58, 0x32]

  datatype Error =
    | EndOfStream
    | InvalidHeader
    | BlockLimit
    | BlockLengths
    | PartialBlock
    | RecordLimit
    | BadBlock
    | DecodedLength
    | BadRecord

  /** The serializer and the block compressor, which are libraries: all that is known of them is that
      they can be undone, and that what they produce is not empty. */
  datatype Libraries<!R(!new)> = Libraries(
    pack: R -> bytes,
    unpack: bytes -> Option<R>,
    compress: bytes -> bytes,
    decompress: (bytes, nat) -> Option<bytes>)
  {
    ghost predicate Valid() {
      && (forall r {:trigger pack(r)} :: unpack(pack(r)) == Some(r) && pack(r) != [])
      && (forall b {:trigger compress(b)} :: b != [] ==> decompress(compress(b), |b|) == Some(b) && compress(b) != [])
    }
  }

  // ----- Headers -----

  /** A 32-bit little-endian number. */
  function PackNumber(n: nat): (s: bytes)
    requires n < 0x1_0000_0000
    ensures |s| == 4
  {
    [n % 0x100, n / 0x100 % 0x100, n / 0x100 / 0x100 % 0x100, n / 0x100 / 0x100 / 0x100]
  }

  function UnpackNumber(s: bytes): nat
    requires |s| == 4
  {
    s[0] as int + s[1] as int * 0x100 + s[2] as int * 0x1_0000 + s[3] as int * 0x100_0000
  }

  lemma NumberRoundTrip(n: nat)
    requires n < 0x1_0000_0000
    ensures UnpackNumber(PackNumber(n)) == n
  {}

  datatype Header = Header(final: bool, compressed: bool, encoded: nat, decoded: nat)

  function PackHeader(h: Header): (s: bytes)
    requires h.encoded < 0x1_0000_0000 && h.decoded < 0x1_0000_0000
    ensures |s| == HEADER_BYTES
  {
    var flags: byte := (if h.final then 1 else 0) + (if h.compressed then 2 else 0);
    MAGIC + [flags] + [0, 0, 0] + PackNumber(h.encoded) + PackNumber(h.decoded)
  }

  /** Magic, unknown flags and reserved bytes are checked. */
  function UnpackHeader(s: bytes): Option<Header>
    requires |s| == HEADER_BYTES
  {
    var flags := s[4];
    if s[..4] != MAGIC || flags >= 4 || s[5..8] != [0, 0, 0] then None
    else Some(Header(flags % 2 == 1, flags / 2 == 1, UnpackNumber(s[8..12]), UnpackNumber(s[12..16])))
  }

  lemma HeaderRoundTrip(h: Header)
    requires h.encoded < 0x1_0000_0000 && h.decoded < 0x1_0000_0000
    ensures UnpackHeader(PackHeader(h)) == Some(h)
  {
    var s := PackHeader(h);
    assert s[8..12] == PackNumber(h.encoded) && s[12..16] == PackNumber(h.decoded);
    assert s[..4] == MAGIC && s[5..8] == [0, 0, 0];
    NumberRoundTrip(h.encoded);
    NumberRoundTrip(h.decoded);
  }

  lemma LastDigit(digit: byte, rest: nat)
    ensures (digit + rest * 0x100) % 0x100 == digit && (digit + rest * 0x100) / 0x100 == rest
  {}

  lemma NumberIsUnique(s: bytes)
    requires |s| == 4
    ensures UnpackNumber(s) < 0x1_0000_0000 && PackNumber(UnpackNumber(s)) == s
  {
    var high: nat := s[2] as int + s[3] as int * 0x100;
    var mid: nat := s[1] as int + high * 0x100;
    assert UnpackNumber(s) == s[0] as int + mid * 0x100;
    LastDigit(s[0], mid);
    LastDigit(s[1], high);
    LastDigit(s[2], s[3]);
  }

  /** Whatever header is accepted is the one that would be written: no other bytes mean the same. */
  lemma HeaderIsUnique(s: bytes)
    requires |s| == HEADER_BYTES && UnpackHeader(s).Some?
    ensures var h := UnpackHeader(s).value;
      h.encoded < 0x1_0000_0000 && h.decoded < 0x1_0000_0000 && PackHeader(h) == s
  {
    hide PackNumber, UnpackNumber;
    NumberIsUnique(s[8..12]);
    NumberIsUnique(s[12..16]);
    assert s == s[..4] + [s[4]] + s[5..8] + s[8..12] + s[12..16];
  }

  /** The checks of the reader, in its order; `room` is what the record may still grow by. */
  function CheckHeader(h: Header, room: int): Option<Error> {
    if !(0 < h.encoded <= BLOCK_BYTES) || !(0 < h.decoded <= BLOCK_BYTES) then Some(BlockLimit)
    else if (if h.compressed then h.encoded >= h.decoded else h.encoded != h.decoded) then Some(BlockLengths)
    else if !h.final && h.decoded != BLOCK_BYTES then Some(PartialBlock)
    else if h.decoded > room then Some(RecordLimit)
    else None
  }

  // ----- Encoding -----

  /** One block as a frame: compressed if that makes it smaller. */
  function Frame<R(!new)>(lib: Libraries<R>, block: bytes, final: bool): (s: bytes)
    requires |block| < 0x1_0000_0000
    ensures |s| >= HEADER_BYTES
  {
    var compressed := lib.compress(block);
    if |compressed| < |block| then PackHeader(Header(final, true, |compressed|, |block|)) + compressed
    else PackHeader(Header(final, false, |block|, |block|)) + block
  }

  /** A payload as frames of full blocks and a last block. */
  function Frames<R(!new)>(lib: Libraries<R>, payload: bytes): bytes
    decreases |payload|
  {
    if payload == [] then []
    else if |payload| <= BLOCK_BYTES then Frame(lib, payload, true)
    else Frame(lib, payload[..BLOCK_BYTES], false) + Frames(lib, payload[BLOCK_BYTES..])
  }

  method Encode<R(!new)>(lib: Libraries<R>, record: R) returns (r: Result<bytes, Error>)
    ensures var payload := lib.pack(record);
      r == if |payload| > RECORD_BYTES then Err(RecordLimit) else Ok(Frames(lib, payload))
    ensures r.Ok? <==> |lib.pack(record)| <= 67108864
    ensures r.Ok? ==> OnTheWire(lib, lib.pack(record), r.value)
  {
    hide Frames, PackHeader, OnTheWire;
    var payload := lib.pack(record);
    if |payload| > RECORD_BYTES {
      return Err(RecordLimit);
    }
    FramesOnTheWire(lib, payload);
    var frames: bytes := [];
    var offset: nat := 0;
    assert payload[0..] == payload;
    while offset < |payload|
      invariant frames + Frames(lib, payload[Least(offset, |payload|)..]) == Frames(lib, payload)
      decreases |payload| - offset
    {
      var end := Least(offset + BLOCK_BYTES, |payload|);
      var block := payload[offset..end];
      FramesStep(lib, payload, offset);
      ghost var before := frames;
      var compressed := lib.compress(block);
      var final := offset + |block| == |payload|;
      var header, data := Header(final, false, |block|, |block|), block;
      if |compressed| < |block| {
        header, data := Header(final, true, |compressed|, |block|), compressed;
      }
      frames := frames + PackHeader(header);
      frames := frames + data;
      Regroup(before, PackHeader(header), data, Frames(lib, payload[end..]));
      offset := offset + BLOCK_BYTES;
    }
    NoFrames(lib, payload);
    assert frames + [] == frames;
    return Ok(frames);
  }

  // ----- The format, byte by byte -----

  /** The little-endian number in four bytes of `s`. */
  ghost function NumberAt(s: bytes, i: nat): nat
    requires i + 4 <= |s|
  {
    s[i] as int + 256 * s[i + 1] as int + 65536 * s[i + 2] as int + 16777216 * s[i + 3] as int
  }

  /** `s` starts with the frame of a block: "TMX2", the flags (1 if it is the last, 2 if it is compressed, which it
      is if that is shorter), three zeros, the lengths on the wire and off it, and the data. */
  ghost predicate StartsWithFrame<R(!new)>(lib: Libraries<R>, block: bytes, last: bool, s: bytes) {
    var compressed := lib.compress(block);
    var data := if |compressed| < |block| then compressed else block;
    && |s| >= 16 + |data|
    && s[0] == 0x54 && s[1] == 0x4D && s[2] == 0x58 && s[3] == 0x32
    && s[4] as int == (if last then 1 else 0) + (if |compressed| < |block| then 2 else 0)
    && s[5] == 0 && s[6] == 0 && s[7] == 0
    && NumberAt(s, 8) == |data| && NumberAt(s, 12) == |block|
    && s[16..16 + |data|] == data
  }

  /** The frames of a payload: 262144 bytes in each but the last, and nothing behind that. */
  ghost predicate OnTheWire<R(!new)>(lib: Libraries<R>, payload: bytes, s: bytes)
    decreases |payload|
  {
    if payload == [] then s == []
    else if |payload| <= 262144 then
      StartsWithFrame(lib, payload, true, s) && |s| == 16 + NumberAt(s, 8)
    else
      && StartsWithFrame(lib, payload[..262144], false, s)
      && OnTheWire(lib, payload[262144..], s[16 + NumberAt(s, 8)..])
  }

  lemma FrameOnTheWire<R(!new)>(lib: Libraries<R>, block: bytes, last: bool, rest: bytes)
    requires |block| <= 262144
    ensures StartsWithFrame(lib, block, last, Frame(lib, block, last) + rest)
    ensures (Frame(lib, block, last) + rest)[|Frame(lib, block, last)|..] == rest
    ensures |Frame(lib, block, last)| == 16 + NumberAt(Frame(lib, block, last) + rest, 8)
  {
    var compressed := lib.compress(block);
    var header, data := Header(last, false, |block|, |block|), block;
    if |compressed| < |block| {
      header, data := Header(last, true, |compressed|, |block|), compressed;
    }
    HeaderBytes(header);
    var p, f := PackHeader(header), Frame(lib, block, last) + rest;
    hide PackHeader;
    assert f == p + data + rest;
    assert forall i :: 0 <= i < 16 ==> f[i] == p[i];
    assert f[16..16 + |data|] == data;
  }

  lemma HeaderBytes(h: Header)
    requires h.encoded < 0x1_0000_0000 && h.decoded < 0x1_0000_0000
    ensures var s := PackHeader(h);
      && s[0] == 0x54 && s[1] == 0x4D && s[2] == 0x58 && s[3] == 0x32
      && s[4] as int == (if h.final then 1 else 0) + (if h.compressed then 2 else 0)
      && s[5] == 0 && s[6] == 0 && s[7] == 0
      && NumberAt(s, 8) == h.encoded && NumberAt(s, 12) == h.decoded
  {
    var s := PackHeader(h);
    NumberRoundTrip(h.encoded);
    NumberRoundTrip(h.decoded);
    assert s[8..12] == PackNumber(h.encoded) && s[12..16] == PackNumber(h.decoded);
    hide PackNumber;
    NumberIsAt(s, 8);
    NumberIsAt(s, 12);
  }

  lemma NumberIsAt(s: bytes, i: nat)
    requires i + 4 <= |s|
    ensures UnpackNumber(s[i..i + 4]) == NumberAt(s, i)
  {}

  /** The encoder writes this format, */
  lemma {:induction false} FramesOnTheWire<R(!new)>(lib: Libraries<R>, payload: bytes)
    ensures OnTheWire(lib, payload, Frames(lib, payload))
    decreases |payload|
  {
    hide Frame, StartsWithFrame;
    if payload == [] {
    } else if |payload| <= 262144 {
      FrameOnTheWire(lib, payload, true, []);
      assert Frame(lib, payload, true) + [] == Frames(lib, payload);
    } else {
      FrameOnTheWire(lib, payload[..262144], false, Frames(lib, payload[262144..]));
      FramesOnTheWire(lib, payload[262144..]);
    }
  }

  /** and the format leaves it no choice. */
  lemma {:induction false} WireIsFrames<R(!new)>(lib: Libraries<R>, payload: bytes, s: bytes)
    requires OnTheWire(lib, payload, s)
    ensures s == Frames(lib, payload)
    decreases |payload|
  {
    hide StartsWithFrame, NumberAt, Frame;
    if payload != [] {
      var last := |payload| <= 262144;
      var block := if last then payload else payload[..262144];
      var frame := Frame(lib, block, last);
      assert frame + [] == frame;
      FrameOnTheWire(lib, block, last, []);
      SameFrame(lib, block, last, s, frame);
      assert frame == frame[..16 + NumberAt(s, 8)] == s[..16 + NumberAt(s, 8)];
      if last {
        assert s == frame;
      } else {
        var more := s[16 + NumberAt(s, 8)..];
        WireIsFrames(lib, payload[262144..], more);
        assert s == frame + more;
      }
    }
  }

  lemma SameFrame<R(!new)>(lib: Libraries<R>, block: bytes, last: bool, s: bytes, t: bytes)
    requires StartsWithFrame(lib, block, last, s) && StartsWithFrame(lib, block, last, t)
    ensures NumberAt(s, 8) == NumberAt(t, 8) && |s| >= 16 + NumberAt(s, 8) && |t| >= 16 + NumberAt(s, 8)
    ensures s[..16 + NumberAt(s, 8)] == t[..16 + NumberAt(t, 8)]
  {
    SameNumber(s, t, 8);
    SameNumber(s, t, 12);
    var n := 16 + NumberAt(s, 8);
    hide NumberAt;
    forall i | 0 <= i < n ensures s[i] == t[i] {
      if i >= 16 { assert s[16..n][i - 16] == t[16..n][i - 16]; }
    }
  }

  lemma SameNumber(s: bytes, t: bytes, i: nat)
    requires i + 4 <= |s| && i + 4 <= |t| && NumberAt(s, i) == NumberAt(t, i)
    ensures s[i] == t[i] && s[i + 1] == t[i + 1] && s[i + 2] == t[i + 2] && s[i + 3] == t[i + 3]
  {
    var m, n := s[i..i + 4], t[i..i + 4];
    NumberIsAt(s, i);
    NumberIsAt(t, i);
    hide NumberAt, UnpackNumber, PackNumber;
    NumberIsUnique(m);
    NumberIsUnique(n);
    assert m == n;
    assert m[0] == s[i] && m[1] == s[i + 1] && m[2] == s[i + 2] && m[3] == s[i + 3];
    assert n[0] == t[i] && n[1] == t[i + 1] && n[2] == t[i + 2] && n[3] == t[i + 3];
  }

  /** What is wrong with the first frame of `s`, of which the record may take `room` bytes: its form, its lengths on
      their own, together, and for a block that is not the last, or the room. */
  ghost function Refusal(s: bytes, room: int): Option<Error>
    requires |s| >= 16
  {
    var encoded, decoded := NumberAt(s, 8), NumberAt(s, 12);
    var compressed, last := s[4] == 2 || s[4] == 3, s[4] == 1 || s[4] == 3;
    if !(s[0] == 0x54 && s[1] == 0x4D && s[2] == 0x58 && s[3] == 0x32) then Some(InvalidHeader)
    else if s[4] > 3 || s[5] != 0 || s[6] != 0 || s[7] != 0 then Some(InvalidHeader)
    else if encoded < 1 || encoded > 262144 || decoded < 1 || decoded > 262144 then Some(BlockLimit)
    else if compressed && decoded <= encoded then Some(BlockLengths)
    else if !compressed && decoded != encoded then Some(BlockLengths)
    else if !last && decoded != 262144 then Some(PartialBlock)
    else if decoded > room then Some(RecordLimit)
    else None
  }

  /** The reader refuses a frame for just these reasons, and reads on behind the header when it does. Otherwise it
      takes the data and goes on, or ends, as the flags say. */
  lemma FrameIsChecked<R(!new)>(lib: Libraries<R>, s: bytes, max: nat, payload: bytes)
    ensures |s| < 16 ==> NextFrame(lib, s, max, payload) == Done(Reading(Err(EndOfStream), []))
    ensures |s| >= 16 && Refusal(s, max - |payload|).Some? ==>
      NextFrame(lib, s, max, payload) == Done(Reading(Err(Refusal(s, max - |payload|).value), s[16..]))
    ensures |s| >= 16 && Refusal(s, max - |payload|).None? && |s| < 16 + NumberAt(s, 8) ==>
      NextFrame(lib, s, max, payload) == Done(Reading(Err(EndOfStream), []))
    ensures |s| >= 16 && Refusal(s, max - |payload|).None? && |s| >= 16 + NumberAt(s, 8) ==>
      var end := 16 + NumberAt(s, 8);
      var block := if s[4] >= 2 then lib.decompress(s[16..end], NumberAt(s, 12)) else Some(s[16..end]);
      NextFrame(lib, s, max, payload) == (
        if block.None? then Done(Reading(Err(BadBlock), s[end..]))
        else if |block.value| != NumberAt(s, 12) then Done(Reading(Err(DecodedLength), s[end..]))
        else if s[4] == 1 || s[4] == 3 then Done(Reading(Ok(payload + block.value), s[end..]))
        else More(s[end..], payload + block.value))
  {
    if |s| >= 16 {
      var h := s[..16];
      assert forall i :: 0 <= i < 16 ==> h[i] == s[i];
      assert h[..4] == MAGIC <==> s[0] == 0x54 && s[1] == 0x4D && s[2] == 0x58 && s[3] == 0x32 by { MagicIs(h); }
      assert h[5..8] == [0, 0, 0] <==> s[5] == 0 && s[6] == 0 && s[7] == 0 by { ReservedIs(h); }
      NumberIsAt(h, 8);
      NumberIsAt(h, 12);
      assert NumberAt(h, 8) == NumberAt(s, 8) && NumberAt(h, 12) == NumberAt(s, 12);
      hide UnpackNumber, NumberAt;
      var end := 16 + NumberAt(s, 8);
      if |s| >= end {
        assert s[16..][..NumberAt(s, 8)] == s[16..end] && s[16..][NumberAt(s, 8)..] == s[end..];
      }
    }
  }

  /** `s` starts with frames that carry a payload, within the room, the last one marked; behind it is `rest`. */
  ghost predicate Carries<R(!new)>(lib: Libraries<R>, s: bytes, room: int, payload: bytes, rest: bytes)
    decreases |s|
  {
    && |s| >= 16 && Refusal(s, room).None? && |s| >= 16 + NumberAt(s, 8)
    && var end := 16 + NumberAt(s, 8);
       var block := if s[4] >= 2 then lib.decompress(s[16..end], NumberAt(s, 12)) else Some(s[16..end]);
       && block.Some? && |block.value| == NumberAt(s, 12)
       && if s[4] == 1 || s[4] == 3 then payload == block.value && rest == s[end..]
          else block.value <= payload
               && Carries(lib, s[end..], room - |block.value|, payload[|block.value|..], rest)
  }

  /** A payload is read exactly if the stream carries it. */
  lemma {:induction false} ReadsWhatIsCarried<R(!new)>(lib: Libraries<R>, s: bytes, max: nat, before: bytes,
                                                       payload: bytes, rest: bytes)
    ensures ReadPayload(lib, s, max, before) == Reading(Ok(before + payload), rest) <==>
            Carries(lib, s, max - |before|, payload, rest)
    decreases |s|
  {
    FrameIsChecked(lib, s, max, before);
    hide Refusal, NextFrame, NumberAt;
    var p := NextFrame(lib, s, max, before);
    if p.More? {
      var end := 16 + NumberAt(s, 8);
      var block := p.payload[|before|..];
      assert p.payload == before + block;
      if block <= payload {
        ReadsWhatIsCarried(lib, p.rest, max, p.payload, payload[|block|..], rest);
        assert p.payload + payload[|block|..] == before + payload;
      } else {
        RoomIsNeeded(s, max - |before|);
        FrameIsBounded(lib, s, max, before);
        ReadIsBounded(lib, p.rest, max, p.payload);
        PrefixCancels(before, block, payload);
      }
    } else if p.reading.result.Ok? {
      var block := p.reading.result.value[|before|..];
      assert p.reading.result.value == before + block;
      PrefixCancels(before, block, payload);
      PrefixCancels(before, payload, block);
    }
  }

  lemma RoomIsNeeded(s: bytes, room: int)
    requires |s| >= 16 && Refusal(s, room).None?
    ensures room > 0
  {}

  lemma PrefixCancels(a: bytes, b: bytes, c: bytes)
    ensures a + b <= a + c ==> b <= c
  {
    assert (a + b)[|a|..] == b && (a + c)[|a|..] == c;
    if a + b <= a + c {
      forall i | 0 <= i < |b| ensures b[i] == c[i] {
        assert (a + b)[|a| + i] == (a + c)[|a| + i];
      }
    }
  }

  lemma MagicIs(s: bytes)
    requires |s| >= 4
    ensures s[..4] == MAGIC <==> s[0] == 0x54 && s[1] == 0x4D && s[2] == 0x58 && s[3] == 0x32
  {
    var m := s[..4];
    assert m == [m[0], m[1], m[2], m[3]];
  }

  lemma ReservedIs(s: bytes)
    requires |s| >= 8
    ensures s[5..8] == [0, 0, 0] <==> s[5] == 0 && s[6] == 0 && s[7] == 0
  {
    var m := s[5..8];
    assert m == [m[0], m[1], m[2]];
  }

  function Least(a: nat, b: nat): nat { if a <= b then a else b }

  lemma Regroup(a: bytes, b: bytes, c: bytes, d: bytes)
    ensures a + b + c + d == a + ((b + c) + d)
  {}

  lemma NoFrames<R(!new)>(lib: Libraries<R>, payload: bytes)
    ensures Frames(lib, payload[|payload|..]) == []
  {}

  lemma FramesStep<R(!new)>(lib: Libraries<R>, payload: bytes, offset: nat)
    requires offset < |payload|
    ensures var end := Least(offset + BLOCK_BYTES, |payload|);
      && Frames(lib, payload[offset..]) ==
         Frame(lib, payload[offset..end], end == |payload|) + Frames(lib, payload[end..])
  {
    var rest := payload[offset..];
    if |rest| <= BLOCK_BYTES {
      assert payload[offset..|payload|] == rest;
    } else {
      assert rest[..BLOCK_BYTES] == payload[offset..offset + BLOCK_BYTES];
      assert rest[BLOCK_BYTES..] == payload[offset + BLOCK_BYTES..];
    }
  }

  // ----- Reading -----

  /** A stream that gives as much as it likes, but something, until it has ended. */
  class Source {
    var data: bytes

    constructor (data: bytes)
      ensures this.data == data
    {
      this.data := data;
    }

    method Read(size: nat) returns (chunk: bytes)
      requires size > 0
      modifies this
      ensures |chunk| <= size && old(data) == chunk + data
      ensures chunk == [] ==> old(data) == []
    {
      if data == [] { return []; }
      var n: nat :| 1 <= n <= size && n <= |data|;
      chunk := data[..n];
      data := data[n..];
    }

    /** Exactly `size` bytes, however the stream splits them. */
    method Exact(size: nat) returns (r: Result<bytes, Error>)
      modifies this
      ensures if |old(data)| >= size then r == Ok(old(data)[..size]) && data == old(data)[size..]
              else r == Err(EndOfStream) && data == []
    {
      var result: bytes := [];
      while |result| < size
        invariant |result| <= size && old(data) == result + data
        decreases size - |result|
      {
        var chunk := Read(size - |result|);
        if chunk == [] {
          return Err(EndOfStream);
        }
        result := result + chunk;
      }
      return Ok(result);
    }
  }

  /** What reading gives, and what it leaves of the stream. */
  datatype Reading<+T> = Reading(result: Result<T, Error>, rest: bytes)

  /** After a frame: the record has ended, one way or another, or it goes on. */
  datatype Progress = Done(reading: Reading<bytes>) | More(rest: bytes, payload: bytes)

  /** Reads one frame of a record of which `payload` has been read already. */
  function NextFrame<R(!new)>(lib: Libraries<R>, s: bytes, max: nat, payload: bytes): (p: Progress)
    ensures p.More? ==> |p.rest| < |s|
  {
    if |s| < HEADER_BYTES then Done(Reading(Err(EndOfStream), []))
    else
      var header, body := UnpackHeader(s[..HEADER_BYTES]), s[HEADER_BYTES..];
      if header.None? then Done(Reading(Err(InvalidHeader), body))
      else
        var h := header.value;
        var failed := CheckHeader(h, max - |payload|);
        if failed.Some? then Done(Reading(Err(failed.value), body))
        else if |body| < h.encoded then Done(Reading(Err(EndOfStream), []))
        else
          var rest := body[h.encoded..];
          var block := if h.compressed then lib.decompress(body[..h.encoded], h.decoded) else Some(body[..h.encoded]);
          if block.None? then Done(Reading(Err(BadBlock), rest))
          else if |block.value| != h.decoded then Done(Reading(Err(DecodedLength), rest))
          else if h.final then Done(Reading(Ok(payload + block.value), rest))
          else More(rest, payload + block.value)
  }

  /** The payload of the record `s` goes on with. */
  function ReadPayload<R(!new)>(lib: Libraries<R>, s: bytes, max: nat, payload: bytes): Reading<bytes>
    decreases |s|
  {
    match NextFrame(lib, s, max, payload)
    case Done(reading) => reading
    case More(rest, longer) => ReadPayload(lib, rest, max, longer)
  }

  function ReadOne<R(!new)>(lib: Libraries<R>, s: bytes, max: nat): Reading<R> {
    var r := ReadPayload(lib, s, max, []);
    match r.result
    case Err(e) => Reading(Err(e), r.rest)
    case Ok(payload) =>
      match lib.unpack(payload)
      case None => Reading(Err(BadRecord), r.rest)
      case Some(record) => Reading(Ok(record), r.rest)
  }

  method ReadRecord<R(!new)>(lib: Libraries<R>, source: Source, max: nat) returns (r: Result<R, Error>)
    modifies source
    ensures Reading(r, source.data) == ReadOne(lib, old(source.data), max)
    ensures |old(source.data)| >= 16 && Refusal(old(source.data), max).Some? ==>
      r == Err(Refusal(old(source.data), max).value) && source.data == old(source.data)[16..]
  {
    FrameIsChecked(lib, source.data, max, []);
    hide Refusal;
    var payload: bytes := [];
    while true
      invariant ReadPayload(lib, source.data, max, payload) == ReadPayload(lib, old(source.data), max, [])
      decreases |source.data|
    {
      var header := source.Exact(HEADER_BYTES);
      if header.Err? { return Err(header.error); }
      var parsed := UnpackHeader(header.value);
      if parsed.None? { return Err(InvalidHeader); }
      var h := parsed.value;
      var failed := CheckHeader(h, max - |payload|);
      if failed.Some? { return Err(failed.value); }
      ghost var s := header.value + source.data;
      assert s[..HEADER_BYTES] == header.value && s[HEADER_BYTES..] == source.data;
      var data := source.Exact(h.encoded);
      if data.Err? { return Err(data.error); }
      var block := data.value;
      if h.compressed {
        var decompressed := lib.decompress(block, h.decoded);
        if decompressed.None? { return Err(BadBlock); }
        block := decompressed.value;
        if |block| != h.decoded { return Err(DecodedLength); }
      }
      payload := payload + block;
      if h.final {
        var record := lib.unpack(payload);
        return if record.None? then Err(BadRecord) else Ok(record.value);
      }
    }
  }

  // ----- Round trips -----

  /** A well-made frame is read back, or refused because it is too much for the record. */
  lemma ReadFrame<R(!new)>(lib: Libraries<R>, block: bytes, final: bool, rest: bytes, max: nat, payload: bytes)
    requires lib.Valid() && 0 < |block| <= BLOCK_BYTES && (final || |block| == BLOCK_BYTES)
    ensures var s := Frame(lib, block, final) + rest;
      ReadPayload(lib, s, max, payload) ==
        if |payload| + |block| > max then Reading(Err(RecordLimit), s[HEADER_BYTES..])
        else if final then Reading(Ok(payload + block), rest)
        else ReadPayload(lib, rest, max, payload + block)
  {
    var compressed := lib.compress(block);
    var header, data := Header(final, false, |block|, |block|), block;
    if |compressed| < |block| {
      header, data := Header(final, true, |compressed|, |block|), compressed;
    }
    var s := Frame(lib, block, final) + rest;
    HeaderRoundTrip(header);
    assert s[..HEADER_BYTES] == PackHeader(header) && s[HEADER_BYTES..] == data + rest;
    assert (data + rest)[..|data|] == data && (data + rest)[|data|..] == rest;
  }

  /** A record is read back whatever follows it, if it is within the limit, and refused otherwise. */
  lemma {:induction false} PayloadRoundTrip<R(!new)>(lib: Libraries<R>, payload: bytes, rest: bytes, max: nat,
                                                     before: bytes)
    requires lib.Valid() && payload != []
    ensures var r := ReadPayload(lib, Frames(lib, payload) + rest, max, before);
      if |before| + |payload| <= max then r == Reading(Ok(before + payload), rest) else r.result == Err(RecordLimit)
    decreases |payload|
  {
    if |payload| <= BLOCK_BYTES {
      ReadFrame(lib, payload, true, rest, max, before);
    } else {
      var block, more := payload[..BLOCK_BYTES], payload[BLOCK_BYTES..];
      ReadFrame(lib, block, false, Frames(lib, more) + rest, max, before);
      assert Frames(lib, payload) + rest == Frame(lib, block, false) + (Frames(lib, more) + rest);
      PayloadRoundTrip(lib, more, rest, max, before + block);
      assert before + block + more == before + payload;
    }
  }

  lemma RecordRoundTrip<R(!new)>(lib: Libraries<R>, record: R, rest: bytes, max: nat)
    requires lib.Valid()
    ensures var r := ReadOne(lib, Frames(lib, lib.pack(record)) + rest, max);
      if |lib.pack(record)| <= max then r == Reading(Ok(record), rest) else r.result == Err(RecordLimit)
  {
    PayloadRoundTrip(lib, lib.pack(record), rest, max, []);
    assert [] + lib.pack(record) == lib.pack(record);
  }

  /** The encodings of several records, one after the other. */
  function EncodeAll<R(!new)>(lib: Libraries<R>, records: seq<R>): bytes {
    if records == [] then [] else Frames(lib, lib.pack(records[0])) + EncodeAll(lib, records[1..])
  }

  /** As many records as asked for, or the first error. */
  function ReadAll<R(!new)>(lib: Libraries<R>, s: bytes, max: nat, n: nat): Reading<seq<R>>
    decreases n
  {
    if n == 0 then Reading(Ok([]), s)
    else
      var first := ReadOne(lib, s, max);
      if first.result.Err? then Reading(Err(first.result.error), first.rest)
      else
        var others := ReadAll(lib, first.rest, max, n - 1);
        if others.result.Err? then others else Reading(Ok([first.result.value] + others.result.value), others.rest)
  }

  /** A stream of records comes back record by record, and nothing behind it is touched. */
  lemma {:induction false} StreamRoundTrip<R(!new)>(lib: Libraries<R>, records: seq<R>, rest: bytes, max: nat)
    requires lib.Valid() && forall i :: 0 <= i < |records| ==> |lib.pack(records[i])| <= max
    ensures ReadAll(lib, EncodeAll(lib, records) + rest, max, |records|) == Reading(Ok(records), rest)
    decreases |records|
  {
    hide Frames, ReadOne;
    if records == [] {
      assert EncodeAll(lib, records) + rest == rest;
    } else {
      var more := EncodeAll(lib, records[1..]) + rest;
      assert EncodeAll(lib, records) + rest == Frames(lib, lib.pack(records[0])) + more;
      RecordRoundTrip(lib, records[0], more, max);
      StreamRoundTrip(lib, records[1..], rest, max);
      assert [records[0]] + records[1..] == records;
    }
  }

  /** Records delimit themselves: no encoding that is cut short is taken for a record. */
  lemma {:induction false} CutShort<R(!new)>(lib: Libraries<R>, payload: bytes, k: nat, max: nat, before: bytes)
    requires lib.Valid() && payload != [] && k < |Frames(lib, payload)| && |before| + |payload| <= max
    ensures ReadPayload(lib, Frames(lib, payload)[..k], max, before) == Reading(Err(EndOfStream), [])
    decreases |payload|
  {
    var final := |payload| <= BLOCK_BYTES;
    var block := if final then payload else payload[..BLOCK_BYTES];
    var frame := Frame(lib, block, final);
    var s := Frames(lib, payload)[..k];
    if k < |frame| {
      assert s == frame[..k];
      CutFrame(lib, block, final, k, max, before);
    } else {
      var more := payload[BLOCK_BYTES..];
      assert s == frame + Frames(lib, more)[..k - |frame|];
      ReadFrame(lib, block, false, Frames(lib, more)[..k - |frame|], max, before);
      CutShort(lib, more, k - |frame|, max, before + block);
    }
  }

  lemma CutFrame<R(!new)>(lib: Libraries<R>, block: bytes, final: bool, k: nat, max: nat, before: bytes)
    requires lib.Valid() && 0 < |block| <= BLOCK_BYTES && (final || |block| == BLOCK_BYTES)
    requires |before| + |block| <= max && k < |Frame(lib, block, final)|
    ensures ReadPayload(lib, Frame(lib, block, final)[..k], max, before) == Reading(Err(EndOfStream), [])
  {
    var compressed := lib.compress(block);
    var header, data := Header(final, false, |block|, |block|), block;
    if |compressed| < |block| {
      header, data := Header(final, true, |compressed|, |block|), compressed;
    }
    var s := Frame(lib, block, final)[..k];
    if k >= HEADER_BYTES {
      HeaderRoundTrip(header);
      assert s[..HEADER_BYTES] == PackHeader(header);
    }
  }

  // ----- Bounds -----

  lemma FrameIsBounded<R(!new)>(lib: Libraries<R>, s: bytes, max: nat, payload: bytes)
    requires |payload| <= max
    ensures match NextFrame(lib, s, max, payload)
      case Done(r) =>
        && EndsWith(s, r.rest) && |s| - |r.rest| <= HEADER_BYTES + BLOCK_BYTES
        && (r.result.Ok? ==> payload < r.result.value && |r.result.value| <= max)
      case More(rest, longer) =>
        && EndsWith(s, rest) && |s| - |rest| <= HEADER_BYTES + BLOCK_BYTES
        && payload <= longer && |payload| + BLOCK_BYTES == |longer| <= max
  {
    hide UnpackHeader;
    if |s| >= HEADER_BYTES {
      var header, body := UnpackHeader(s[..HEADER_BYTES]), s[HEADER_BYTES..];
      if header.Some? && |body| >= header.value.encoded {
        assert body[header.value.encoded..] == s[HEADER_BYTES + header.value.encoded..];
      }
    }
  }

  ghost predicate EndsWith(s: bytes, t: bytes) {
    |t| <= |s| && s[|s| - |t|..] == t
  }

  lemma EndsWithTransitive(s: bytes, t: bytes, u: bytes)
    requires EndsWith(s, t) && EndsWith(t, u)
    ensures EndsWith(s, u)
  {
    assert s[|s| - |u|..] == s[|s| - |t|..][|t| - |u|..];
  }

  /** The bytes of the frames of full blocks that fit, and of one more. */
  function ReadLimit(room: nat): nat {
    (if room < BLOCK_BYTES then 0 else ReadLimit(room - BLOCK_BYTES)) + HEADER_BYTES + BLOCK_BYTES
  }

  lemma {:induction false} ReadLimitFormula(blocks: nat, room: nat)
    requires blocks * BLOCK_BYTES <= room < (blocks + 1) * BLOCK_BYTES
    ensures ReadLimit(room) == (blocks + 1) * (HEADER_BYTES + BLOCK_BYTES)
    decreases blocks
  {
    if blocks > 0 { ReadLimitFormula(blocks - 1, room - BLOCK_BYTES); }
  }

  /** However long the stream, no more is taken off it than the limit allows; and what is read extends
      what there was, within the limit. */
  lemma {:induction false} ReadIsBounded<R(!new)>(lib: Libraries<R>, s: bytes, max: nat, payload: bytes)
    requires |payload| <= max
    ensures var r := ReadPayload(lib, s, max, payload);
      && EndsWith(s, r.rest)
      && |s| - |r.rest| <= ReadLimit(max - |payload|)
      && (r.result.Ok? ==> payload < r.result.value && |r.result.value| <= max)
    decreases |s|
  {
    hide NextFrame, EndsWith;
    FrameIsBounded(lib, s, max, payload);
    var p := NextFrame(lib, s, max, payload);
    if p.More? {
      ReadIsBounded(lib, p.rest, max, p.payload);
      EndsWithTransitive(s, p.rest, ReadPayload(lib, p.rest, max, p.payload).rest);
    }
  }
}
