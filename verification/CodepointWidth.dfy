/** The display width of a codepoint, looked up a vector of lanes at a time (src/simd/codepoint_width.cpp). */
module CodepointWidth {
  import opened Simd
  import opened WidthTables

  // ----- The width as ranges define it, in their order of precedence -----

  ghost predicate Within(keys: seq<Range>, input: nat) {
    exists k :: 0 <= k < |keys| && keys[k].Has(input)
  }

  ghost function Width16(input: nat): int {
    if Within(FAST16[..5], input) then 2
    else if Within(FAST16[5..], input) then 0
    else if Within(ZERO16, input) then 0
    else if Within(EAW16, input) then 2
    else if Within(NSM16, input) then 0
    else 1
  }

  ghost function Width32(input: nat): int {
    if Within(WIDE32, input) then 2
    else if Within(ZERO_PLANE32, input) then 0
    else if Within(ZERO32, input) then 0
    else if Within(EAW32, input) then 2
    else if Within(NSM32, input) then 0
    else 1
  }

  ghost function Width(input: nat): int {
    if input <= 0xFF then 1 else if input <= 0xFFFF then Width16(input) else Width32(input)
  }

  // ----- Padded tables -----

  /** The two arrays of a table: its keys, then zeros. */
  function Lows(keys: seq<Range>, size: nat): (a: seq<nat>)
    requires |keys| <= size
    ensures |a| == size
    ensures forall i :: 0 <= i < size ==> a[i] == if i < |keys| then keys[i].low else 0
  {
    seq(size, i requires 0 <= i < size => if i < |keys| then keys[i].low else 0)
  }

  function Highs(keys: seq<Range>, size: nat): (a: seq<nat>)
    requires |keys| <= size
    ensures |a| == size
    ensures forall i :: 0 <= i < size ==> a[i] == if i < |keys| then keys[i].high else 0
  {
    seq(size, i requires 0 <= i < size => if i < |keys| then keys[i].high else 0)
  }

  /** How many entries a scan of whole vectors can see. */
  function Covered(size: nat, lanes: nat): nat
    requires lanes > 0
  {
    size - size % lanes
  }

  /** The least key, zeros apart. */
  method ArrayMin(a: seq<nat>) returns (m: nat)
    requires |a| > 0
    ensures m != 0 ==> m in a
    ensures forall i :: 0 <= i < |a| && a[i] != 0 ==> 0 < m <= a[i]
  {
    m := a[0];
    for i := 1 to |a|
      invariant m != 0 ==> m in a
      invariant forall j :: 0 <= j < i && a[j] != 0 ==> 0 < m <= a[j]
    {
      if a[i] != 0 && (m == 0 || a[i] < m) { m := a[i]; }
    }
  }

  method ArrayMax(a: seq<nat>) returns (m: nat)
    requires |a| > 0
    ensures m in a && forall i :: 0 <= i < |a| ==> a[i] <= m
  {
    m := a[0];
    for i := 1 to |a|
      invariant m in a && forall j :: 0 <= j < i ==> a[j] <= m
    {
      if a[i] > m { m := a[i]; }
    }
  }

  // ----- Scanning a table -----

  /** The first key that has the input, among those the lanes reach. */
  ghost predicate IsFirstHit(keys: seq<Range>, size: nat, lanes: nat, input: nat, k: int)
    requires lanes > 0
  {
    && -1 <= k < |keys|
    && (k >= 0 ==> k < Covered(size, lanes) && keys[k].Has(input))
    && (forall j :: 0 <= j < |keys| && j < Covered(size, lanes) && (j < k || k < 0) ==> !keys[j].Has(input))
  }

  /** Whether the input lies between two keys, lane by lane. */
  function InLanes(input: nat, gte: seq<nat>, lte: seq<nat>): (mask: seq<bool>)
    requires |gte| == |lte|
    ensures |mask| == |gte|
    ensures forall i :: 0 <= i < |gte| ==> mask[i] == (gte[i] <= input <= lte[i])
  {
    seq(|gte|, i requires 0 <= i < |gte| => gte[i] <= input <= lte[i])
  }

  /** One vector of a scan: its first lane with a hit, or -1. Padding never hits. */
  method ScanVector(keys: seq<Range>, size: nat, lanes: nat, input: nat, i: nat) returns (idx: int)
    requires lanes > 0 && input > 0 && |keys| <= size && i + lanes <= size
    ensures -1 <= idx < lanes
    ensures idx >= 0 ==> i + idx < |keys| && keys[i + idx].Has(input)
    ensures forall j :: i <= j < i + (if idx < 0 then lanes else idx) && j < |keys| ==> !keys[j].Has(input)
  {
    var gte, lte := Lows(keys, size)[i..i + lanes], Highs(keys, size)[i..i + lanes];
    var mask := InLanes(input, gte, lte);
    idx := FindFirstTrue(mask);
    hide *;
    forall j | i <= j < i + lanes
      ensures mask[j - i] == (j < |keys| && keys[j].Has(input))
    {
      LaneHits(keys, size, lanes, input, i, j - i);
    }
  }

  lemma LaneHits(keys: seq<Range>, size: nat, lanes: nat, input: nat, i: nat, lane: nat)
    requires lane < lanes && input > 0 && |keys| <= size && i + lanes <= size
    ensures InLanes(input, Lows(keys, size)[i..i + lanes], Highs(keys, size)[i..i + lanes])[lane] ==
            (i + lane < |keys| && keys[i + lane].Has(input))
  {
    assert Lows(keys, size)[i..i + lanes][lane] == Lows(keys, size)[i + lane];
    assert Highs(keys, size)[i..i + lanes][lane] == Highs(keys, size)[i + lane];
  }

  /** A scan stops at the first vector that starts with padding or does not fit any more. It returns the
      start of the vector with the hit, and the lane, -1 if there is none. */
  method Scan(keys: seq<Range>, size: nat, lanes: nat, input: nat) returns (i: nat, idx: int)
    requires lanes > 0 && input > 0 && |keys| <= size
    ensures i % lanes == 0 && -1 <= idx < lanes
    ensures IsFirstHit(keys, size, lanes, input, if idx < 0 then -1 else i + idx)
    ensures i <= size && (idx < 0 ==> i >= |keys| || i + lanes > size)
  {
    hide Covered;
    i, idx := 0, -1;
    while i + lanes <= size && Highs(keys, size)[i] != 0
      invariant i <= size && i % lanes == 0 && idx == -1
      invariant forall j :: 0 <= j < i && j < |keys| ==> !keys[j].Has(input)
      decreases size - i
    {
      idx := ScanVector(keys, size, lanes, input, i);
      if idx >= 0 {
        WithinCovered(size, lanes, i);
        return;
      }
      NextVector(i, lanes);
      i := i + lanes;
    }
    BeyondCovered(size, lanes, i);
  }

  lemma NextVector(i: nat, lanes: nat)
    requires lanes > 0 && i % lanes == 0
    ensures (i + lanes) % lanes == 0
  {
    var d, e, r := i / lanes, (i + lanes) / lanes, (i + lanes) % lanes;
    Distribute(d, 1, lanes);
    Multiples(d + 1, e, lanes);
    Multiples(e, d + 1, lanes);
    Multiples(e + 1, d + 1, lanes);
    Distribute(e, 1, lanes);
    assert d * lanes == i && e * lanes + r == i + lanes by { DivMod(i, lanes); DivMod(i + lanes, lanes); }
  }

  lemma DivMod(n: nat, lanes: nat)
    requires lanes > 0
    ensures n == n / lanes * lanes + n % lanes && n % lanes < lanes
  {}

  lemma Distribute(a: nat, b: nat, lanes: nat)
    ensures (a + b) * lanes == a * lanes + b * lanes
  {}

  lemma WithinCovered(size: nat, lanes: nat, i: nat)
    requires lanes > 0 && i % lanes == 0 && i + lanes <= size
    ensures i + lanes <= Covered(size, lanes)
  {
    Multiples(i / lanes, size / lanes, lanes);
    assert size == size / lanes * lanes + size % lanes && i == i / lanes * lanes;
  }

  lemma BeyondCovered(size: nat, lanes: nat, i: nat)
    requires lanes > 0 && i % lanes == 0
    ensures i + lanes > size ==> Covered(size, lanes) <= i
  {
    Multiples(i / lanes, size / lanes, lanes);
    assert size == size / lanes * lanes + size % lanes && i == i / lanes * lanes;
  }

  lemma Multiples(q: nat, n: nat, lanes: nat)
    requires lanes > 0
    ensures q < n ==> q * lanes + lanes <= n * lanes
    ensures n <= q ==> n * lanes <= q * lanes
  {
    if q < n {
      Distribute(q, n - q, lanes);
      AtLeastOne(n - q, lanes);
    } else {
      Distribute(n, q - n, lanes);
    }
  }

  lemma {:induction false} AtLeastOne(n: nat, lanes: nat)
    requires n > 0
    ensures n * lanes >= lanes
  {
    Distribute(n - 1, 1, lanes);
  }

  // ----- The width as vectors find it -----

  ghost function FirstHitBelow(keys: seq<Range>, n: nat, input: nat): (k: int)
    requires n <= |keys|
    ensures -1 <= k < n
    ensures k >= 0 ==> keys[k].Has(input)
    ensures forall j :: 0 <= j < n && (j < k || k < 0) ==> !keys[j].Has(input)
  {
    if n == 0 then -1
    else
      var k := FirstHitBelow(keys, n - 1, input);
      if k < 0 && keys[n - 1].Has(input) then n - 1 else k
  }

  ghost function FirstHit(keys: seq<Range>, size: nat, lanes: nat, input: nat): (k: int)
    requires lanes > 0
    ensures IsFirstHit(keys, size, lanes, input, k)
  {
    FirstHitBelow(keys, if Covered(size, lanes) < |keys| then Covered(size, lanes) else |keys|, input)
  }

  /** What the scans make of the tables: the lane of a fast hit decides, not its place in the table. */
  ghost function LaneWidth16(lanes: nat, input: nat): int
    requires lanes > 0
  {
    var fast := FirstHit(FAST16, 40, lanes, input);
    if fast >= 0 then (if fast % lanes >= 5 then 0 else 2)
    else if FirstHit(ZERO16, 54, lanes, input) >= 0 then 0
    else if FirstHit(EAW16, 126, lanes, input) >= 0 then 2
    else if FirstHit(NSM16, 252, lanes, input) >= 0 then 0
    else 1
  }

  ghost function LaneWidth32(lanes: nat, input: nat): int
    requires lanes > 0
  {
    if FirstHit(WIDE32, 16, lanes, input) >= 0 then 2
    else if FirstHit(ZERO_PLANE32, 16, lanes, input) >= 0 then 0
    else if FirstHit(ZERO32, 18, lanes, input) >= 0 then 0
    else if FirstHit(EAW32, 88, lanes, input) >= 0 then 2
    else if FirstHit(NSM32, 152, lanes, input) >= 0 then 0
    else 1
  }

  lemma HitIsUnique(keys: seq<Range>, size: nat, lanes: nat, input: nat, i: int, idx: int)
    requires lanes > 0 && i >= 0 && i % lanes == 0 && -1 <= idx < lanes
    requires IsFirstHit(keys, size, lanes, input, if idx < 0 then -1 else i + idx)
    ensures idx >= 0 <==> FirstHit(keys, size, lanes, input) >= 0
    ensures idx >= 0 ==> FirstHit(keys, size, lanes, input) == i + idx
    ensures idx >= 0 ==> (i + idx) % lanes == idx
  {
    hide Covered, FirstHit;
    var k := FirstHit(keys, size, lanes, input);
    if idx >= 0 { LaneOf(i, lanes, idx); }
  }

  lemma LaneOf(i: nat, lanes: nat, idx: nat)
    requires idx < lanes && i % lanes == 0
    ensures (i + idx) % lanes == idx
  {
    DivMod(i, lanes);
    DivMod(i + idx, lanes);
    var d, e := i / lanes, (i + idx) / lanes;
    Multiples(d, e, lanes);
    Multiples(e, d, lanes);
  }

  /** A scan behind the bounds of its table: what lies outside of them has no hit in it. */
  method GuardedScan(keys: seq<Range>, size: nat, lanes: nat, input: nat) returns (hit: bool)
    requires lanes > 0 && input > 0 && 0 < |keys| <= size
    ensures hit <==> FirstHit(keys, size, lanes, input) >= 0
  {
    hide FirstHit, Covered;
    var gteMin := ArrayMin(Lows(keys, size));
    var lteMax := ArrayMax(Highs(keys, size));
    hit := false;
    if gteMin <= input <= lteMax {
      var i, idx := Scan(keys, size, lanes, input);
      HitIsUnique(keys, size, lanes, input, i, idx);
      hit := idx >= 0;
    } else {
      OutsideBounds(keys, size, input, gteMin, lteMax);
    }
  }

  lemma OutsideBounds(keys: seq<Range>, size: nat, input: nat, gteMin: nat, lteMax: nat)
    requires |keys| <= size
    requires forall i :: 0 <= i < size && Lows(keys, size)[i] != 0 ==> gteMin <= Lows(keys, size)[i]
    requires forall i :: 0 <= i < size ==> Highs(keys, size)[i] <= lteMax
    requires !(gteMin <= input <= lteMax)
    ensures forall k :: 0 <= k < |keys| ==> !keys[k].Has(input)
  {
    forall k | 0 <= k < |keys| ensures !keys[k].Has(input) {
      assert Lows(keys, size)[k] == keys[k].low && Highs(keys, size)[k] == keys[k].high;
    }
  }

  /** The first scan of the 16-bit lookup. What the source asserts behind it, that all fast keys have been seen,
      holds for up to 40 lanes only. */
  method ScanFast16(lanes: nat, input: nat) returns (i: nat, idx: int)
    requires lanes > 0 && input > 0
    ensures -1 <= idx < lanes
    ensures idx >= 0 <==> FirstHit(FAST16, 40, lanes, input) >= 0
    ensures idx >= 0 ==> idx == FirstHit(FAST16, 40, lanes, input) % lanes
    ensures idx < 0 ==> (i >= 7 <==> lanes <= 40)
  {
    hide FirstHit, Covered, IsFirstHit, FAST16;
    Sizes();
    i, idx := Scan(FAST16, 40, lanes, input);
    HitIsUnique(FAST16, 40, lanes, input, i, idx);
    if i < lanes { LaneOf(0, lanes, i); }
  }

  /** The first scan of the 32-bit lookup, and what is asserted behind it. */
  method ScanWide32(lanes: nat, input: nat) returns (i: nat, idx: int)
    requires lanes > 0 && input > 0
    ensures idx >= 0 <==> FirstHit(WIDE32, 16, lanes, input) >= 0
    ensures idx < 0 ==> (i >= 2 <==> lanes <= 16)
  {
    hide FirstHit, Covered, IsFirstHit, WIDE32;
    Sizes();
    i, idx := Scan(WIDE32, 16, lanes, input);
    HitIsUnique(WIDE32, 16, lanes, input, i, idx);
    if i < lanes { LaneOf(0, lanes, i); }
  }

  method CodepointWidth16(lanes: nat, input: nat) returns (width: int)
    requires lanes > 0 && 0xFF < input <= 0xFFFF
    ensures width == LaneWidth16(lanes, input)
  {
    hide FirstHit, Covered, IsFirstHit, FAST16, ZERO16, EAW16, NSM16;
    Sizes();
    var i, idx := ScanFast16(lanes, input);
    if idx >= 5 { return 0; } else if idx >= 0 { return 2; }
    var zero := GuardedScan(ZERO16, 54, lanes, input);
    if zero { return 0; }
    var wide := GuardedScan(EAW16, 126, lanes, input);
    if wide { return 2; }
    var mark := GuardedScan(NSM16, 252, lanes, input);
    return if mark then 0 else 1;
  }

  method CodepointWidth32(lanes: nat, input: nat) returns (width: int)
    requires lanes > 0 && input > 0xFFFF
    ensures width == LaneWidth32(lanes, input)
  {
    hide FirstHit, Covered, IsFirstHit, WIDE32, ZERO_PLANE32, ZERO32, EAW32, NSM32;
    Sizes();
    var i, idx := ScanWide32(lanes, input);
    if idx >= 0 { return 2; }
    i, idx := Scan(ZERO_PLANE32, 16, lanes, input);
    HitIsUnique(ZERO_PLANE32, 16, lanes, input, i, idx);
    if idx >= 0 { return 0; }
    var zero := GuardedScan(ZERO32, 18, lanes, input);
    if zero { return 0; }
    var wide := GuardedScan(EAW32, 88, lanes, input);
    if wide { return 2; }
    var mark := GuardedScan(NSM32, 152, lanes, input);
    return if mark then 0 else 1;
  }

  // ----- For which lane counts the vectors are right -----

  lemma CoversMultiple(size: nat, lanes: nat, q: nat)
    requires lanes > 0 && q * lanes <= size
    ensures q * lanes <= Covered(size, lanes)
  {
    DivMod(size, lanes);
    Multiples(size / lanes, q, lanes);
    Multiples(q, size / lanes, lanes);
  }

  lemma HitIsWithin(keys: seq<Range>, size: nat, lanes: nat, input: nat)
    requires lanes > 0 && |keys| <= Covered(size, lanes)
    ensures FirstHit(keys, size, lanes, input) >= 0 <==> Within(keys, input)
  {
    hide Covered, FirstHit;
    var k := FirstHit(keys, size, lanes, input);
    if Within(keys, input) {
      var j :| 0 <= j < |keys| && keys[j].Has(input);
    }
  }

  lemma Covers16(lanes: nat)
    requires 8 <= lanes <= 40
    ensures Covered(40, lanes) >= 8 && Covered(54, lanes) >= 15 && Covered(126, lanes) >= 85
    ensures Covered(252, lanes) >= 212
  {
    CoversMultiple(40, lanes, 1);
    CoversMultiple(54, lanes, 1);
    if lanes > 32 {
      CoversMultiple(126, lanes, 3);
      CoversMultiple(252, lanes, if lanes <= 36 then 7 else 6);
    }
  }

  lemma Covers32(lanes: nat)
    requires 0 < lanes <= 16
    ensures Covered(16, lanes) >= 3 && Covered(18, lanes) >= 7 && Covered(88, lanes) >= 70 && Covered(152, lanes) >= 134
  {
    if lanes > 8 {
      CoversMultiple(16, lanes, 1);
      CoversMultiple(18, lanes, 1);
    }
  }

  lemma FastHit(lanes: nat, input: nat)
    requires 8 <= lanes <= 40
    ensures var k := FirstHit(FAST16, 40, lanes, input);
      && (0 <= k < 5 <==> Within(FAST16[..5], input))
      && (k >= 5 ==> k % lanes == k && Within(FAST16[5..], input))
      && (k < 0 ==> !Within(FAST16[5..], input))
      && (0 <= k < 5 ==> k % lanes == k)
  {
    hide Covered, FirstHit, FAST16;
    Sizes();
    Covers16(lanes);
    var k := FirstHit(FAST16, 40, lanes, input);
    if k >= 0 { LaneOf(0, lanes, k); }
    if 0 <= k < 5 { assert FAST16[..5][k].Has(input); }
    if k >= 5 { assert FAST16[5..][k - 5].Has(input); }
    assert forall j :: 0 <= j < 5 ==> FAST16[..5][j] == FAST16[j];
    assert forall j :: 0 <= j < 3 ==> FAST16[5..][j] == FAST16[j + 5];
  }

  lemma RightWidth16(lanes: nat, input: nat)
    requires 8 <= lanes <= 40
    ensures LaneWidth16(lanes, input) == Width16(input)
  {
    hide Covered, FirstHit, Within, FAST16, ZERO16, EAW16, NSM16;
    Sizes();
    Covers16(lanes);
    FastHit(lanes, input);
    HitIsWithin(ZERO16, 54, lanes, input);
    HitIsWithin(EAW16, 126, lanes, input);
    HitIsWithin(NSM16, 252, lanes, input);
  }

  lemma RightWidth32(lanes: nat, input: nat)
    requires 0 < lanes <= 16
    ensures LaneWidth32(lanes, input) == Width32(input)
  {
    hide Covered, FirstHit, Within, WIDE32, ZERO_PLANE32, ZERO32, EAW32, NSM32;
    Sizes();
    Covers32(lanes);
    HitIsWithin(WIDE32, 16, lanes, input);
    HitIsWithin(ZERO_PLANE32, 16, lanes, input);
    HitIsWithin(ZERO32, 18, lanes, input);
    HitIsWithin(EAW32, 88, lanes, input);
    HitIsWithin(NSM32, 152, lanes, input);
  }

  // ----- For which lane counts they are wrong -----

  ghost predicate Misses(keys: seq<Range>, input: nat) {
    forall k :: 0 <= k < |keys| ==> !keys[k].Has(input)
  }

  lemma {:induction false} MissesParts(parts: seq<seq<Range>>, input: nat)
    ensures Misses(Flatten(parts), input) <==> forall i :: 0 <= i < |parts| ==> Misses(parts[i], input)
  {
    hide Misses;
    if parts != [] {
      MissesBoth(parts[0], Flatten(parts[1..]), input);
      MissesParts(parts[1..], input);
      assert forall i :: 1 <= i < |parts| ==> parts[i] == parts[1..][i - 1];
    } else {
      MissesNothing(input);
    }
  }

  lemma MissesNothing(input: nat)
    ensures Misses([], input)
  {}

  lemma MissesBoth(a: seq<Range>, b: seq<Range>, input: nat)
    ensures Misses(a + b, input) <==> Misses(a, input) && Misses(b, input)
  {
    assert forall k :: 0 <= k < |a| ==> (a + b)[k] == a[k];
    assert forall k :: 0 <= k < |b| ==> (a + b)[|a| + k] == b[k];
  }

  /** Below 8 lanes the last fast key shares a lane with a wide one: U+FFF0 comes out wide. */
  lemma TooFewLanes(lanes: nat)
    requires 0 < lanes < 8
    ensures LaneWidth16(lanes, 0xFFF0) == 2 && Width16(0xFFF0) == 0
  {
    assert Covered(40, lanes) >= 8;
    assert !Within(FAST16[..5], 0xFFF0);
    assert FAST16[5..][2].Has(0xFFF0);
    assert FAST16[7].Has(0xFFF0) && Misses(FAST16[..7], 0xFFF0);
    assert forall j :: 0 <= j < 7 ==> FAST16[..7][j] == FAST16[j];
    assert FirstHit(FAST16, 40, lanes, 0xFFF0) == 7;
  }

  lemma WideMiss16()
    ensures Misses(EAW16, 0x2E3A)
  {
    assert Misses(EAW16_1, 0x2E3A) && Misses(EAW16_2, 0x2E3A) && Misses(EAW16_3, 0x2E3A) && Misses(EAW16_4, 0x2E3A);
    assert Misses(EAW16_5, 0x2E3A) && Misses(EAW16_6, 0x2E3A);
    hide Misses;
    MissesParts(EAW16_PARTS, 0x2E3A);
  }

  lemma MarksMiss16()
    ensures Misses(NSM16, 0x2E3A)
  {
    assert Misses(NSM16_1, 0x2E3A) && Misses(NSM16_2, 0x2E3A) && Misses(NSM16_3, 0x2E3A) && Misses(NSM16_4, 0x2E3A);
    assert Misses(NSM16_5, 0x2E3A) && Misses(NSM16_6, 0x2E3A) && Misses(NSM16_7, 0x2E3A) && Misses(NSM16_8, 0x2E3A);
    assert Misses(NSM16_9, 0x2E3A) && Misses(NSM16_10, 0x2E3A) && Misses(NSM16_11, 0x2E3A) && Misses(NSM16_12, 0x2E3A);
    assert Misses(NSM16_13, 0x2E3A) && Misses(NSM16_14, 0x2E3A);
    hide Misses;
    MissesParts(NSM16_PARTS, 0x2E3A);
  }

  lemma WideMiss32()
    ensures Misses(EAW32, 0x3FFFD)
  {
    assert Misses(EAW32_1, 0x3FFFD) && Misses(EAW32_2, 0x3FFFD) && Misses(EAW32_3, 0x3FFFD) && Misses(EAW32_4, 0x3FFFD);
    assert Misses(EAW32_5, 0x3FFFD);
    hide Misses;
    MissesParts(EAW32_PARTS, 0x3FFFD);
  }

  lemma MarksMiss32()
    ensures Misses(NSM32, 0x3FFFD)
  {
    assert Misses(NSM32_1, 0x3FFFD) && Misses(NSM32_2, 0x3FFFD) && Misses(NSM32_3, 0x3FFFD) && Misses(NSM32_4, 0x3FFFD);
    assert Misses(NSM32_5, 0x3FFFD) && Misses(NSM32_6, 0x3FFFD) && Misses(NSM32_7, 0x3FFFD) && Misses(NSM32_8, 0x3FFFD);
    assert Misses(NSM32_9, 0x3FFFD);
    hide Misses;
    MissesParts(NSM32_PARTS, 0x3FFFD);
  }

  /** Above 40 lanes the fast keys are never looked at: U+2E3A comes out narrow. */
  lemma TooManyLanes16(lanes: nat)
    requires lanes > 40
    ensures LaneWidth16(lanes, 0x2E3A) == 1 && Width16(0x2E3A) == 2
  {
    assert FAST16[..5][0].Has(0x2E3A);
    assert Covered(40, lanes) == 0;
    assert Misses(ZERO16, 0x2E3A);
    WideMiss16();
    MarksMiss16();
    hide FAST16, ZERO16, EAW16, NSM16, Covered, FirstHit;
    assert FirstHit(FAST16, 40, lanes, 0x2E3A) < 0;
  }

  lemma TooManyLanes32(lanes: nat)
    requires lanes > 16
    ensures LaneWidth32(lanes, 0x3FFFD) == 1 && Width32(0x3FFFD) == 2
  {
    assert WIDE32[2].Has(0x3FFFD);
    assert Covered(16, lanes) == 0;
    assert Misses(ZERO32, 0x3FFFD);
    WideMiss32();
    MarksMiss32();
    hide WIDE32, ZERO_PLANE32, ZERO32, EAW32, NSM32, Covered, FirstHit;
    assert FirstHit(WIDE32, 16, lanes, 0x3FFFD) < 0 && FirstHit(ZERO_PLANE32, 16, lanes, 0x3FFFD) < 0;
  }

  /** The 16-bit lookup is right for every codepoint exactly for these lane counts. */
  lemma LaneCounts16(lanes: nat)
    requires lanes > 0
    ensures (forall input: nat | 0xFF < input <= 0xFFFF :: LaneWidth16(lanes, input) == Width16(input))
            <==> 8 <= lanes <= 40
  {
    hide LaneWidth16, Width16;
    if 8 <= lanes <= 40 {
      forall input: nat | 0xFF < input <= 0xFFFF ensures LaneWidth16(lanes, input) == Width16(input) {
        RightWidth16(lanes, input);
      }
    } else if lanes < 8 {
      TooFewLanes(lanes);
    } else {
      TooManyLanes16(lanes);
    }
  }

  lemma LaneCounts32(lanes: nat)
    requires lanes > 0
    ensures (forall input: nat | input > 0xFFFF :: LaneWidth32(lanes, input) == Width32(input)) <==> lanes <= 16
  {
    hide LaneWidth32, Width32;
    if lanes <= 16 {
      forall input: nat | input > 0xFFFF ensures LaneWidth32(lanes, input) == Width32(input) {
        RightWidth32(lanes, input);
      }
    } else {
      TooManyLanes32(lanes);
    }
  }

  /** The dispatch on the size of the codepoint. */
  method CodepointWidth(lanes16: nat, lanes32: nat, input: nat) returns (width: int)
    requires lanes16 > 0 && lanes32 > 0
    ensures 8 <= lanes16 <= 40 && lanes32 <= 16 ==> width == Width(input)
    ensures 8 <= lanes16 <= 40 && lanes32 <= 16 ==> IsWidth(input, width)
  {
    WidthIs(input);
    hide LaneWidth16, LaneWidth32, Width16, Width32, IsWidth;
    if input <= 0xFF { return 1; }
    if input <= 0xFFFF {
      width := CodepointWidth16(lanes16, input);
      if 8 <= lanes16 <= 40 { RightWidth16(lanes16, input); }
    } else {
      width := CodepointWidth32(lanes32, input);
      if lanes32 <= 16 { RightWidth32(lanes32, input); }
    }
  }

  // ----- Widths by their answers -----

  /** Wide: the codepoints of the fast tables, and East Asian wide ones that no table before makes zero. */
  ghost predicate IsWide(input: nat) {
    if input <= 0xFFFF then
      Within(FAST16[..5], input) || (Within(EAW16, input) && !Within(FAST16[5..], input) && !Within(ZERO16, input))
    else
      Within(WIDE32, input) || (Within(EAW32, input) && !Within(ZERO_PLANE32, input) && !Within(ZERO32, input))
  }

  /** Of no width: what the tables of zeros hold unless it is fast and wide, and marks that are not wide. */
  ghost predicate IsZero(input: nat) {
    if input <= 0xFFFF then
      && !Within(FAST16[..5], input)
      && (Within(FAST16[5..], input) || Within(ZERO16, input) || (Within(NSM16, input) && !Within(EAW16, input)))
    else
      && !Within(WIDE32, input)
      && (Within(ZERO_PLANE32, input) || Within(ZERO32, input) || (Within(NSM32, input) && !Within(EAW32, input)))
  }

  /** The first 256 codepoints have width 1; then each has 2, 0 or 1. */
  ghost predicate IsWidth(input: nat, width: int) {
    && (input <= 255 ==> width == 1)
    && (input > 255 ==>
          && (width == 2 <==> IsWide(input)) && (width == 0 <==> IsZero(input))
          && (width == 1 <==> !IsWide(input) && !IsZero(input)))
  }

  lemma WidthIs(input: nat)
    ensures IsWidth(input, Width(input))
  {
    hide Within, FAST16, ZERO16, EAW16, NSM16, WIDE32, ZERO_PLANE32, ZERO32, EAW32, NSM32;
  }

  lemma MissesIsOutside(keys: seq<Range>, input: nat)
    ensures Misses(keys, input) <==> !Within(keys, input)
  {}

  lemma WithinPart(parts: seq<seq<Range>>, input: nat, i: nat, k: nat)
    requires i < |parts| && k < |parts[i]| && parts[i][k].Has(input)
    ensures Within(Flatten(parts), input)
  {
    MissesParts(parts, input);
    assert !Misses(parts[i], input);
    MissesIsOutside(Flatten(parts), input);
  }

  lemma MissesFast(input: nat)
    requires Misses(FAST16, input)
    ensures !Within(FAST16[..5], input) && !Within(FAST16[5..], input)
  {
    Sizes();
    hide FAST16;
    assert forall j :: 0 <= j < 5 ==> FAST16[..5][j] == FAST16[j];
    assert forall j :: 0 <= j < 3 ==> FAST16[5..][j] == FAST16[j + 5];
  }

  /** One codepoint that each 16-bit table answers for, and one that none does. */
  lemma KnownWidths16()
    ensures Width(0x41) == 1 && Width(0x3400) == 2 && Width(0x2E3A) == 2 && Width(0x1160) == 0
    ensures Width(0x200B) == 0 && Width(0x1100) == 2 && Width(0x0301) == 0 && Width(0x0100) == 1
  {
    assert FAST16[..5][1].Has(0x3400) && FAST16[..5][0].Has(0x2E3A) && FAST16[5..][0].Has(0x1160);
    assert Misses(FAST16[..5], 0x1160);
    assert Misses(FAST16, 0x200B) && Misses(FAST16, 0x1100) && Misses(FAST16, 0x0301) && Misses(FAST16, 0x0100);
    MissesFast(0x200B);
    MissesFast(0x1100);
    MissesFast(0x0301);
    MissesFast(0x0100);
    assert ZERO16[4].Has(0x200B);
    assert Misses(ZERO16, 0x1100) && Misses(ZERO16, 0x0301) && Misses(ZERO16, 0x0100);
    assert EAW16_1[3].Has(0x1100) && NSM16_1[0].Has(0x0301);
    WithinPart(EAW16_PARTS, 0x1100, 0, 3);
    WithinPart(NSM16_PARTS, 0x0301, 0, 0);
    NotWide16();
    NotMark16();
    hide FAST16, ZERO16, EAW16, NSM16;
  }

  lemma NotWide16()
    ensures Misses(EAW16, 0x0301)
    ensures Misses(EAW16, 0x0100)
  {
    assert Misses(EAW16_1, 0x0301) && Misses(EAW16_2, 0x0301) && Misses(EAW16_3, 0x0301) && Misses(EAW16_4, 0x0301);
    assert Misses(EAW16_5, 0x0301) && Misses(EAW16_6, 0x0301);
    assert Misses(EAW16_1, 0x0100) && Misses(EAW16_2, 0x0100) && Misses(EAW16_3, 0x0100) && Misses(EAW16_4, 0x0100);
    assert Misses(EAW16_5, 0x0100) && Misses(EAW16_6, 0x0100);
    hide Misses;
    MissesParts(EAW16_PARTS, 0x0301);
    MissesParts(EAW16_PARTS, 0x0100);
  }

  lemma NotMark16()
    ensures Misses(NSM16, 0x0100)
  {
    assert Misses(NSM16_1, 0x0100) && Misses(NSM16_2, 0x0100) && Misses(NSM16_3, 0x0100) && Misses(NSM16_4, 0x0100);
    assert Misses(NSM16_5, 0x0100) && Misses(NSM16_6, 0x0100) && Misses(NSM16_7, 0x0100) && Misses(NSM16_8, 0x0100);
    assert Misses(NSM16_9, 0x0100) && Misses(NSM16_10, 0x0100) && Misses(NSM16_11, 0x0100) && Misses(NSM16_12, 0x0100);
    assert Misses(NSM16_13, 0x0100) && Misses(NSM16_14, 0x0100);
    hide Misses;
    MissesParts(NSM16_PARTS, 0x0100);
  }

  lemma NotWide32()
    ensures Misses(EAW32, 0x101FD)
    ensures Misses(EAW32, 0x10FFFF)
  {
    assert Misses(EAW32_1, 0x101FD) && Misses(EAW32_2, 0x101FD) && Misses(EAW32_3, 0x101FD) && Misses(EAW32_4, 0x101FD);
    assert Misses(EAW32_5, 0x101FD);
    assert Misses(EAW32_1, 0x10FFFF) && Misses(EAW32_2, 0x10FFFF);
    assert Misses(EAW32_3, 0x10FFFF) && Misses(EAW32_4, 0x10FFFF);
    assert Misses(EAW32_5, 0x10FFFF);
    hide Misses;
    MissesParts(EAW32_PARTS, 0x101FD);
    MissesParts(EAW32_PARTS, 0x10FFFF);
  }

  lemma NotMark32()
    ensures Misses(NSM32, 0x10FFFF)
  {
    assert Misses(NSM32_1, 0x10FFFF) && Misses(NSM32_2, 0x10FFFF);
    assert Misses(NSM32_3, 0x10FFFF) && Misses(NSM32_4, 0x10FFFF);
    assert Misses(NSM32_5, 0x10FFFF) && Misses(NSM32_6, 0x10FFFF);
    assert Misses(NSM32_7, 0x10FFFF) && Misses(NSM32_8, 0x10FFFF);
    assert Misses(NSM32_9, 0x10FFFF);
    hide Misses;
    MissesParts(NSM32_PARTS, 0x10FFFF);
  }

  /** The same for the 32-bit tables. */
  lemma KnownWidths32()
    ensures Width(0x1F1E6) == 2 && Width(0x20000) == 2 && Width(0x30000) == 2 && Width(0xE0100) == 0
    ensures Width(0x110BD) == 0 && Width(0x1F600) == 2 && Width(0x101FD) == 0 && Width(0x10FFFF) == 1
  {
    assert WIDE32[0].Has(0x1F1E6) && WIDE32[1].Has(0x20000) && WIDE32[2].Has(0x30000) && ZERO_PLANE32[0].Has(0xE0100);
    assert Misses(WIDE32, 0xE0100) && Misses(WIDE32, 0x110BD) && Misses(WIDE32, 0x1F600);
    assert Misses(WIDE32, 0x101FD) && Misses(WIDE32, 0x10FFFF);
    assert Misses(ZERO_PLANE32, 0x110BD) && Misses(ZERO_PLANE32, 0x1F600);
    assert Misses(ZERO_PLANE32, 0x101FD) && Misses(ZERO_PLANE32, 0x10FFFF);
    assert ZERO32[0].Has(0x110BD);
    assert Misses(ZERO32, 0x1F600) && Misses(ZERO32, 0x101FD) && Misses(ZERO32, 0x10FFFF);
    assert EAW32_3[10].Has(0x1F600) && NSM32_1[0].Has(0x101FD);
    WithinPart(EAW32_PARTS, 0x1F600, 2, 10);
    WithinPart(NSM32_PARTS, 0x101FD, 0, 0);
    NotWide32();
    NotMark32();
    hide WIDE32, ZERO_PLANE32, ZERO32, EAW32, NSM32;
  }
}
