/** The table-driven decoder of src/terminal/UTF8Decoder.zig: it reads one byte at a time and keeps
    a state and an accumulator instead of the bytes themselves. */
module Utf8Dfa {
  import opened Basics
  import opened Utf8

  const ACCEPT_STATE: nat := 0
  const REJECT_STATE: nat := 12

  function CharClass(b: byte): (c: nat)
    ensures c < 12
  {
    if b <= 0x7F then 0
    else if b <= 0x8F then 1
    else if b <= 0x9F then 9
    else if b <= 0xBF then 7
    else if b <= 0xC1 then 8
    else if b <= 0xDF then 2
    else if b == 0xE0 then 10
    else if b <= 0xEC then 3
    else if b == 0xED then 4
    else if b <= 0xEF then 3
    else if b == 0xF0 then 11
    else if b <= 0xF3 then 6
    else if b == 0xF4 then 5
    else 8
  }

  /** One row of twelve for each state; a state is the index of its row's first entry. */
  function Row(state: nat): (row: seq<nat>)
    ensures |row| == 12
  {
    match state
    case 0 => [0, 12, 24, 36, 60, 96, 84, 12, 12, 12, 48, 72]
    case 24 => [12, 0, 12, 12, 12, 12, 12, 0, 12, 0, 12, 12]
    case 36 => [12, 24, 12, 12, 12, 12, 12, 24, 12, 24, 12, 12]
    case 48 => [12, 12, 12, 12, 12, 12, 12, 24, 12, 12, 12, 12]
    case 60 => [12, 24, 12, 12, 12, 12, 12, 12, 12, 24, 12, 12]
    case 72 => [12, 12, 12, 12, 12, 12, 12, 36, 12, 36, 12, 12]
    case 84 => [12, 36, 12, 12, 12, 12, 12, 36, 12, 36, 12, 12]
    case 96 => [12, 36, 12, 12, 12, 12, 12, 12, 12, 12, 12, 12]
    case _ => [12, 12, 12, 12, 12, 12, 12, 12, 12, 12, 12, 12]
  }

  /** 0xFF >> charClass, plus one. */
  function LeadModulus(charClass: nat): (m: nat)
    ensures m > 0
  {
    match charClass
    case 0 => 0x100 case 1 => 0x80 case 2 => 0x40 case 3 => 0x20
    case 4 => 0x10 case 5 => 0x08 case 6 => 0x04 case 7 => 0x02 case _ => 0x01
  }

  /** The state in which `pending` has been read. */
  function StateOf(pending: bytes): nat
    requires Pending(pending)
  {
    if pending == [] then ACCEPT_STATE
    else if |pending| == 1 && pending[0] == 0xE0 then 48
    else if |pending| == 1 && pending[0] == 0xED then 60
    else if |pending| == 1 && pending[0] == 0xF0 then 72
    else if |pending| == 1 && 0xF1 <= pending[0] <= 0xF3 then 84
    else if |pending| == 1 && pending[0] == 0xF4 then 96
    else if SequenceLength(pending[0]) - |pending| == 1 then 24
    else 36
  }

  function AccumulatorOf(pending: bytes): int {
    if pending == [] then 0 else Value(pending)
  }

  lemma AccumulatorFits(pending: bytes)
    requires Pending(pending)
    ensures 0 <= AccumulatorOf(pending) < 0x8000
  {
    if pending != [] {
      MatchesIsInitial(pending);
      ValueUnrolled(pending);
    }
  }

  /** The table entry says whether the byte completes, extends or breaks the held sequence. */
  lemma TransitionIsStep(pending: bytes, b: byte)
    requires Pending(pending)
    ensures var p := pending + [b]; var next := Row(StateOf(pending))[CharClass(b)];
      && (next == ACCEPT_STATE <==> WellFormed(p))
      && (next == REJECT_STATE <==> !Matches(p))
      && (Partial(p) ==> next == StateOf(p))
  {
    var p := pending + [b];
    MatchesIsInitial(p);
    if pending != [] { MatchesIsInitial(pending); }
  }

  lemma FirstByteValue(b: byte)
    requires Matches([b])
    ensures b % LeadModulus(CharClass(b)) == Value([b])
  {}

  class UTF8Decoder {
    var accumulator: int
    var state: nat
    ghost var pending: bytes

    ghost predicate Valid()
      reads this
    {
      Pending(pending) && state == StateOf(pending) && accumulator == AccumulatorOf(pending)
    }

    constructor ()
      ensures Valid() && pending == []
    {
      accumulator, state, pending := 0, ACCEPT_STATE, [];
    }

    /** Takes a byte; gives the code point it completes, if any, and whether the byte was consumed.
        A byte that breaks a held sequence is not: it must be given again, and is consumed then. */
    method Next(b: byte) returns (codepoint: Option<int>, consumed: bool)
      requires Valid()
      modifies this
      ensures Valid()
      ensures var out := if codepoint.Some? then [codepoint.value] else [];
        Step(old(pending), b) ==
          if consumed then Progress(out, pending)
          else Progress(out + Step(pending, b).out, Step(pending, b).pending)
      ensures !consumed ==> old(pending) != [] && pending == [] && codepoint == Some(REPLACEMENT)
    {
      var charClass := CharClass(b);
      var initialState := state;
      AccumulatorFits(pending);
      TransitionIsStep(pending, b);
      ghost var p := pending + [b];
      assert p[..|p| - 1] == pending;
      if state != ACCEPT_STATE {
        accumulator := accumulator * 0x40 % 0x200000 + b % 0x40;
        assert Matches(p) ==> accumulator == Value(p);
      } else {
        accumulator := b % LeadModulus(charClass);
        if Matches(p) { FirstByteValue(b); }
      }
      state := Row(initialState)[charClass];
      if state == ACCEPT_STATE {
        codepoint, consumed := Some(accumulator), true;
        accumulator, pending := 0, [];
      } else if state == REJECT_STATE {
        accumulator, state, pending := 0, ACCEPT_STATE, [];
        codepoint, consumed := Some(REPLACEMENT), initialState == ACCEPT_STATE;
      } else {
        pending := p;
        codepoint, consumed := None, true;
      }
    }
  }
}
