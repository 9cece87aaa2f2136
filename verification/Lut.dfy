/** The three-stage lookup table of src/font/nerd_font_codegen.py. */
module Lut {
  import opened Basics

  const STAGE1_LEN: nat := 0x2000
  const BLOCK_SIZE: nat := 256
  const MAX_U16: nat := 0xFFFF
  const MAX_U21: nat := 0x1FFFFF
  const NULL_LITERAL: string := "null"

  datatype Error = Stage3TooLong | CodepointTooLarge | Stage2TooLong
  datatype Tables = Tables(stage1: seq<nat>, stage2: seq<nat>, stage3: seq<string>)

  // ----- What is looked up -----

  /** The literal of a codepoint, "null" if it has none. */
  function LiteralOf(literals: map<nat, string>, cp: nat): string {
    if cp in literals then literals[cp] else NULL_LITERAL
  }

  function OptionalLiteral(literals: map<nat, string>, cp: nat): Option<string> {
    if cp in literals then Some(literals[cp]) else None
  }

  /** A page of 256 codepoints: which have a literal, and which one. */
  type Page = seq<Option<string>>

  ghost function PageOf(literals: map<nat, string>, page: nat): (p: Page)
    ensures |p| == BLOCK_SIZE
    ensures forall low :: 0 <= low < BLOCK_SIZE ==> p[low] == OptionalLiteral(literals, page * BLOCK_SIZE + low)
  {
    seq(BLOCK_SIZE, low requires 0 <= low < BLOCK_SIZE => OptionalLiteral(literals, page * BLOCK_SIZE + low))
  }

  ghost function NullPage(): (p: Page)
    ensures |p| == BLOCK_SIZE && forall low :: 0 <= low < BLOCK_SIZE ==> p[low] == None
  {
    seq(BLOCK_SIZE, low => None)
  }

  /** The different pages among the first ones, the empty page always one of them. */
  ghost function Kinds(literals: map<nat, string>, pages: nat): set<Page> {
    {NullPage()} + (set p: nat | p < pages :: PageOf(literals, p))
  }

  predicate InBounds(t: Tables, cp: nat) {
    && cp / BLOCK_SIZE < |t.stage1|
    && t.stage1[cp / BLOCK_SIZE] + cp % BLOCK_SIZE < |t.stage2|
    && t.stage2[t.stage1[cp / BLOCK_SIZE] + cp % BLOCK_SIZE] < |t.stage3|
  }

  /** The lookup the generated code does. */
  function Lookup(t: Tables, cp: nat): string
    requires InBounds(t, cp)
  {
    t.stage3[t.stage2[t.stage1[cp / BLOCK_SIZE] + cp % BLOCK_SIZE]]
  }

  // ----- What the table promises -----

  ghost predicate Distinct<T>(s: seq<T>) {
    forall i, j :: 0 <= i < j < |s| ==> s[i] != s[j]
  }

  /** Block number k of stage 2. */
  function Block(stage2: seq<nat>, k: nat): seq<nat>
    requires (k + 1) * BLOCK_SIZE <= |stage2|
  {
    stage2[k * BLOCK_SIZE..k * BLOCK_SIZE + BLOCK_SIZE]
  }

  /** Every codepoint finds its literal, through indexes of 16 bits that are in bounds. */
  ghost predicate IsMap(t: Tables, literals: map<nat, string>) {
    && |t.stage1| == STAGE1_LEN && |t.stage2| <= MAX_U16 && |t.stage3| <= MAX_U16 + 1
    && forall cp: nat :: cp <= MAX_U21 ==> InBounds(t, cp) && Lookup(t, cp) == LiteralOf(literals, cp)
  }

  /** Nothing is stored twice: as many literals and blocks as there are different ones. */
  ghost predicate IsDeduplicated(t: Tables, literals: map<nat, string>) {
    && |t.stage1| == STAGE1_LEN
    && |t.stage3| == 1 + |literals.Values| && t.stage3[0] == NULL_LITERAL && Distinct(t.stage3[1..])
    && |t.stage2| == BLOCK_SIZE * |Kinds(literals, STAGE1_LEN)|
    && (forall p :: 0 <= p < STAGE1_LEN ==> t.stage1[p] % BLOCK_SIZE == 0 && t.stage1[p] < |t.stage2|)
    && (forall j, k :: 0 <= j < k && (k + 1) * BLOCK_SIZE <= |t.stage2| ==> Block(t.stage2, j) != Block(t.stage2, k))
    && (forall p, q :: 0 <= p < STAGE1_LEN && 0 <= q < STAGE1_LEN ==>
          (t.stage1[p] == t.stage1[q] <==> PageOf(literals, p) == PageOf(literals, q)))
    && (forall p :: 0 <= p < STAGE1_LEN ==> (t.stage1[p] == 0 <==> PageOf(literals, p) == NullPage()))
  }

  // ----- The same with numbers -----

  /** Three lookups, all in bounds, lead from any codepoint of 21 bits to its literal, or to "null". */
  ghost predicate ServesAll(t: Tables, literals: map<nat, string>) {
    && |t.stage1| == 8192 && |t.stage2| <= 65535 && |t.stage3| <= 65536
    && forall cp: nat {:trigger Served(t, literals, cp)} :: cp <= 0x1FFFFF ==> Served(t, literals, cp)
  }

  ghost predicate Served(t: Tables, literals: map<nat, string>, cp: nat) {
    && cp / 256 < |t.stage1|
    && t.stage1[cp / 256] + cp % 256 < |t.stage2|
    && t.stage2[t.stage1[cp / 256] + cp % 256] < |t.stage3|
    && t.stage3[t.stage2[t.stage1[cp / 256] + cp % 256]] == if cp in literals then literals[cp] else "null"
  }

  /** The same codepoints of two pages have literals, and the same ones. */
  ghost predicate SamePage(literals: map<nat, string>, p: nat, q: nat) {
    forall low: nat :: low < 256 ==> SameAt(literals, p, q, low)
  }

  ghost predicate SameAt(literals: map<nat, string>, p: nat, q: nat, low: nat) {
    if 256 * p + low in literals then
      256 * q + low in literals && literals[256 * p + low] == literals[256 * q + low]
    else 256 * q + low !in literals
  }

  /** Pages share a block exactly if they are the same; blocks differ, and all but the first are some page's;
      literals differ, and are just those there are. */
  ghost predicate SharesAll(t: Tables, literals: map<nat, string>) {
    && |t.stage1| == 8192
    && (forall p, q :: 0 <= p < 8192 && 0 <= q < 8192 ==>
          (t.stage1[p] == t.stage1[q] <==> SamePage(literals, p, q)))
    && (forall j, k :: 0 <= j < k && 256 * k + 256 <= |t.stage2| ==> BlocksDiffer(t, j, k))
    && (forall k :: 0 < k && 256 * k + 256 <= |t.stage2| ==> 256 * k in t.stage1)
    && |t.stage3| == 1 + |literals.Values| && (forall i, j :: 1 <= i < j < |t.stage3| ==> t.stage3[i] != t.stage3[j])
  }

  ghost predicate BlocksDiffer(t: Tables, j: nat, k: nat)
    requires j < k && 256 * k + 256 <= |t.stage2|
  {
    exists low: nat :: low < 256 && DiffersAt(t.stage2, 256 * j, 256 * k, low)
  }

  ghost predicate DiffersAt(s: seq<nat>, i: nat, j: nat, low: nat) {
    i + low < |s| && j + low < |s| && s[i + low] != s[j + low]
  }

  lemma MapServesAll(t: Tables, literals: map<nat, string>)
    requires IsMap(t, literals)
    ensures ServesAll(t, literals)
  {
    forall cp: nat | cp <= 0x1FFFFF ensures Served(t, literals, cp) {
      assert InBounds(t, cp) && Lookup(t, cp) == LiteralOf(literals, cp);
    }
  }

  lemma SamePageIs(literals: map<nat, string>, p: nat, q: nat)
    ensures SamePage(literals, p, q) <==> PageOf(literals, p) == PageOf(literals, q)
  {
    var u, v := PageOf(literals, p), PageOf(literals, q);
    forall low: nat | low < 256 ensures u[low] == v[low] <==> SameAt(literals, p, q, low) {
      assert p * BLOCK_SIZE + low == 256 * p + low && q * BLOCK_SIZE + low == 256 * q + low;
      assert u[low] == OptionalLiteral(literals, 256 * p + low) && v[low] == OptionalLiteral(literals, 256 * q + low);
    }
    hide PageOf, SameAt;
    if u == v { assert forall low: nat :: low < 256 ==> u[low] == v[low]; }
  }

  lemma BlocksDifferIs(t: Tables, j: nat, k: nat)
    requires j < k && 256 * k + 256 <= |t.stage2| && Block(t.stage2, j) != Block(t.stage2, k)
    ensures BlocksDiffer(t, j, k)
  {
    var a, b := Block(t.stage2, j), Block(t.stage2, k);
    var low :| 0 <= low < 256 && a[low] != b[low];
    assert t.stage2[256 * j + low] == a[low] && t.stage2[256 * k + low] == b[low];
    assert DiffersAt(t.stage2, 256 * j, 256 * k, low);
  }

  lemma DeduplicatedSharesAll(t: Tables, literals: map<nat, string>, kinds: seq<Page>)
    requires IsDeduplicated(t, literals) && Placed(t.stage1, kinds, literals)
    requires Collected(kinds, literals, STAGE1_LEN) && |t.stage2| == BLOCK_SIZE * |kinds|
    ensures SharesAll(t, literals)
  {
    hide PageOf, NullPage, Block, SamePage, BlocksDiffer;
    forall p, q | 0 <= p < 8192 && 0 <= q < 8192
      ensures t.stage1[p] == t.stage1[q] <==> SamePage(literals, p, q)
    {
      SamePageIs(literals, p, q);
    }
    forall j, k | 0 <= j < k && 256 * k + 256 <= |t.stage2| ensures BlocksDiffer(t, j, k) {
      BlocksDifferIs(t, j, k);
    }
    forall k | 0 < k && 256 * k + 256 <= |t.stage2| ensures 256 * k in t.stage1 {
      BlockIsUsed(t.stage1, literals, kinds, k);
    }
    forall i, j | 1 <= i < j < |t.stage3| ensures t.stage3[i] != t.stage3[j] {
      assert t.stage3[1..][i - 1] == t.stage3[i] && t.stage3[1..][j - 1] == t.stage3[j];
    }
  }

  lemma BlockIsUsed(stage1: seq<nat>, literals: map<nat, string>, kinds: seq<Page>, k: nat)
    requires Placed(stage1, kinds, literals) && Collected(kinds, literals, |stage1|) && 0 < k < |kinds|
    ensures BLOCK_SIZE * k in stage1
  {
    hide PageOf, NullPage;
    assert kinds[k] in kinds && kinds[0] != kinds[k];
    var p: nat :| p < |stage1| && PageOf(literals, p) == kinds[k];
    assert kinds[stage1[p] / BLOCK_SIZE] == kinds[k];
    assert stage1[p] / BLOCK_SIZE == k;
    assert stage1[p] == BLOCK_SIZE * k;
  }

  /** Literals are numbered, and blocks stored, in the order in which the codepoints first need them. */
  ghost predicate InOrder(t: Tables, literals: map<nat, string>) {
    && (forall a, b :: 1 <= a < b < |t.stage3| ==> NeededBefore(literals, t.stage3[a], t.stage3[b]))
    && OffsetsInOrder(t.stage1)
  }

  ghost predicate NeededBefore(literals: map<nat, string>, l: string, l': string) {
    exists cp :: cp in literals && literals[cp] == l && forall c :: c in literals && literals[c] == l' ==> cp < c
  }

  lemma MetIsNeeded(t: Tables, literals: map<nat, string>, cps: seq<nat>, literalIndex: map<string, nat>)
    requires Enumerates(cps, literals.Keys) && forall i, j :: 0 <= i < j < |cps| ==> cps[i] < cps[j]
    requires MetInOrder(literals, cps, |cps|, literalIndex, t.stage3) && OffsetsInOrder(t.stage1)
    ensures InOrder(t, literals)
  {
    hide OffsetsInOrder;
    forall a, b | 1 <= a < b < |t.stage3| ensures NeededBefore(literals, t.stage3[a], t.stage3[b]) {
      assert MetBefore(literals, cps, |cps|, t.stage3[a], t.stage3[b]);
      var m: nat :| m < |cps| && HasLiteral(literals, cps, m, t.stage3[a])
                    && forall k: nat :: k <= m ==> !HasLiteral(literals, cps, k, t.stage3[b]);
      forall c | c in literals && literals[c] == t.stage3[b] ensures cps[m] < c {
        assert c in cps;
        var k: nat :| k < |cps| && cps[k] == c;
        assert HasLiteral(literals, cps, k, t.stage3[b]);
      }
    }
  }

  // ----- The codepoints in increasing order -----

  method Least(keys: set<nat>) returns (least: nat)
    requires keys != {}
    ensures least in keys && forall k :: k in keys ==> least <= k
  {
    least :| least in keys;
    var rest := keys - {least};
    while rest != {}
      invariant least in keys && rest <= keys && forall k :: k in keys ==> k in rest || least <= k
      decreases |rest|
    {
      var k :| k in rest;
      if k < least { least := k; }
      rest := rest - {k};
    }
  }

  ghost predicate Enumerates(s: seq<nat>, keys: set<nat>) {
    forall k :: k in s <==> k in keys
  }

  lemma EnumeratesAt(s: seq<nat>, keys: set<nat>, i: nat)
    requires Enumerates(s, keys) && i < |s|
    ensures s[i] in keys
  {}

  method Sorted(keys: set<nat>) returns (s: seq<nat>)
    ensures Enumerates(s, keys)
    ensures forall i, j :: 0 <= i < j < |s| ==> s[i] < s[j]
  {
    s := [];
    var rest := keys;
    while rest != {}
      invariant forall k :: k in keys <==> k in s || k in rest
      invariant forall i, j :: 0 <= i < j < |s| ==> s[i] < s[j]
      invariant forall i, k :: 0 <= i < |s| && k in rest ==> s[i] < k
      decreases |rest|
    {
      var least := Least(rest);
      s, rest := s + [least], rest - {least};
    }
  }

  // ----- Stage 3 -----

  /** A literal and its place in stage 3 determine each other; place 0 is nobody's. */
  ghost predicate Numbers(literalIndex: map<string, nat>, stage3: seq<string>) {
    && |stage3| == 1 + |literalIndex| && stage3[0] == NULL_LITERAL
    && (forall l :: l in literalIndex ==> 1 <= literalIndex[l] < |stage3| && stage3[literalIndex[l]] == l)
    && (forall k :: 1 <= k < |stage3| ==> stage3[k] in literalIndex && literalIndex[stage3[k]] == k)
  }

  ghost predicate Indexes(literals: map<nat, string>, literalIndex: map<string, nat>, cpIndex: map<nat, nat>) {
    forall cp :: cp in cpIndex ==>
      cp in literals && literals[cp] in literalIndex && cpIndex[cp] == literalIndex[literals[cp]]
  }

  lemma NumbersStart()
    ensures Numbers(map[], [NULL_LITERAL])
  {}

  lemma NumbersSize(literalIndex: map<string, nat>, stage3: seq<string>)
    requires Numbers(literalIndex, stage3)
    ensures |stage3| == 1 + |literalIndex.Keys|
  {}

  lemma NumbersOneMore(literalIndex: map<string, nat>, stage3: seq<string>, literal: string)
    requires Numbers(literalIndex, stage3) && literal !in literalIndex
    ensures Numbers(literalIndex[literal := |stage3|], stage3 + [literal])
  {
    var after := literalIndex[literal := |stage3|];
    assert after.Keys == literalIndex.Keys + {literal};
    assert |after| == |after.Keys|;
  }

  lemma IndexesOneMoreLiteral(literals: map<nat, string>, literalIndex: map<string, nat>, cpIndex: map<nat, nat>,
                              literal: string, idx: nat)
    requires Indexes(literals, literalIndex, cpIndex) && literal !in literalIndex
    ensures Indexes(literals, literalIndex[literal := idx], cpIndex)
  {}

  ghost predicate Covered(cps: seq<nat>, i: nat, cpIndex: map<nat, nat>)
    requires i <= |cps|
  {
    forall j :: 0 <= j < i ==> cps[j] in cpIndex
  }

  lemma CoveredOneMore(cps: seq<nat>, i: nat, cpIndex: map<nat, nat>, idx: nat)
    requires i < |cps| && Covered(cps, i, cpIndex)
    ensures Covered(cps, i + 1, cpIndex[cps[i] := idx])
  {}

  method BuildStage3(literals: map<nat, string>, cps: seq<nat>)
    returns (r: Result<(seq<string>, map<nat, nat>, map<string, nat>), Error>)
    requires Enumerates(cps, literals.Keys)
    ensures r.Err? ==> r.error == Stage3TooLong
    ensures r.Ok? <==> |literals.Values| <= MAX_U16
    ensures r.Ok? ==>
      && r.value.1.Keys == literals.Keys && r.value.2.Keys == literals.Values
      && Numbers(r.value.2, r.value.0) && Indexes(literals, r.value.2, r.value.1)
      && MetInOrder(literals, cps, |cps|, r.value.2, r.value.0)
  {
    hide *;
    var literalIndex: map<string, nat> := map[];
    var stage3 := [NULL_LITERAL];
    var cpIndex: map<nat, nat> := map[];
    NoneNumbered(literals, cps);
    NoneMet(literals, cps);
    var i := 0;
    while i < |cps|
      invariant 0 <= i <= |cps|
      invariant AreNumbered(literals, cps, i, literalIndex, stage3, cpIndex)
      invariant MetInOrder(literals, cps, i, literalIndex, stage3)
    {
      var cp := cps[i];
      NextLiteral(literals, cps, i, literalIndex, stage3, cpIndex);
      NextMet(literals, cps, i, literalIndex, stage3);
      var literal := literals[cp];
      if literal !in literalIndex {
        var idx := |stage3|;
        if idx > MAX_U16 { return Err(Stage3TooLong); }
        literalIndex := literalIndex[literal := idx];
        stage3 := stage3 + [literal];
      }
      OneMoreNumbered(literals, cps, i, literalIndex, stage3, cpIndex);
      cpIndex := cpIndex[cp := literalIndex[literal]];
      i := i + 1;
    }
    AllNumbered(literals, cps, literalIndex, stage3, cpIndex);
    return Ok((stage3, cpIndex, literalIndex));
  }

  ghost predicate HasLiteral(literals: map<nat, string>, cps: seq<nat>, m: nat, literal: string) {
    m < |cps| && cps[m] in literals && literals[cps[m]] == literal
  }

  /** The first i codepoints have met the literals of stage 3, and each before the next one. */
  ghost predicate MetInOrder(literals: map<nat, string>, cps: seq<nat>, i: nat, literalIndex: map<string, nat>,
                             stage3: seq<string>)
  {
    && (forall m: nat, l: string :: m < i && HasLiteral(literals, cps, m, l) ==> l in literalIndex)
    && (forall a :: 1 <= a < |stage3| ==> WasMet(literals, cps, i, stage3[a]))
    && (forall a, b :: 1 <= a < b < |stage3| ==> MetBefore(literals, cps, i, stage3[a], stage3[b]))
  }

  ghost predicate WasMet(literals: map<nat, string>, cps: seq<nat>, i: nat, l: string) {
    exists m: nat :: m < i && HasLiteral(literals, cps, m, l)
  }

  ghost predicate MetBefore(literals: map<nat, string>, cps: seq<nat>, i: nat, l: string, l': string) {
    exists m: nat ::
      && m < i && HasLiteral(literals, cps, m, l)
      && forall k: nat :: k <= m ==> !HasLiteral(literals, cps, k, l')
  }

  lemma NoneMet(literals: map<nat, string>, cps: seq<nat>)
    ensures MetInOrder(literals, cps, 0, map[], [NULL_LITERAL])
  {}

  lemma NextMet(literals: map<nat, string>, cps: seq<nat>, i: nat, literalIndex: map<string, nat>, stage3: seq<string>)
    requires i < |cps| && cps[i] in literals
    requires MetInOrder(literals, cps, i, literalIndex, stage3)
    ensures literals[cps[i]] in literalIndex ==> MetInOrder(literals, cps, i + 1, literalIndex, stage3)
    ensures literals[cps[i]] !in literalIndex ==>
      MetInOrder(literals, cps, i + 1, literalIndex[literals[cps[i]] := |stage3|], stage3 + [literals[cps[i]]])
  {
    var literal := literals[cps[i]];
    assert HasLiteral(literals, cps, i, literal);
    assert forall m: nat, l: string :: m < i + 1 && HasLiteral(literals, cps, m, l) ==>
      (m < i && HasLiteral(literals, cps, m, l)) || l == literal;
    assert WasMet(literals, cps, i + 1, literal);
    forall a | 1 <= a < |stage3| ensures WasMet(literals, cps, i + 1, stage3[a]) {
      assert WasMet(literals, cps, i, stage3[a]);
    }
    if literal !in literalIndex {
      var more := stage3 + [literal];
      forall a, b | 1 <= a < b < |more| ensures MetBefore(literals, cps, i + 1, more[a], more[b]) {
        if b < |stage3| {
          assert MetBefore(literals, cps, i, stage3[a], stage3[b]);
        } else {
          assert WasMet(literals, cps, i, stage3[a]);
          var m: nat :| m < i && HasLiteral(literals, cps, m, stage3[a]);
          assert forall k: nat :: k <= m ==> !HasLiteral(literals, cps, k, literal);
        }
      }
    } else {
      forall a, b | 1 <= a < b < |stage3| ensures MetBefore(literals, cps, i + 1, stage3[a], stage3[b]) {
        assert MetBefore(literals, cps, i, stage3[a], stage3[b]);
      }
    }
  }

  /** The state after i codepoints. */
  ghost predicate AreNumbered(literals: map<nat, string>, cps: seq<nat>, i: nat, literalIndex: map<string, nat>,
                              stage3: seq<string>, cpIndex: map<nat, nat>)
    requires i <= |cps|
  {
    && Numbers(literalIndex, stage3) && |stage3| <= MAX_U16 + 1
    && Indexes(literals, literalIndex, cpIndex) && Covered(cps, i, cpIndex)
    && cpIndex.Keys <= literals.Keys && literalIndex.Keys <= literals.Values
  }

  lemma NoneNumbered(literals: map<nat, string>, cps: seq<nat>)
    ensures AreNumbered(literals, cps, 0, map[], [NULL_LITERAL], map[])
  {
    NumbersStart();
  }

  /** A literal without a number gets the next one, unless there are too many. */
  lemma NextLiteral(literals: map<nat, string>, cps: seq<nat>, i: nat, literalIndex: map<string, nat>,
                    stage3: seq<string>, cpIndex: map<nat, nat>)
    requires Enumerates(cps, literals.Keys) && i < |cps|
    requires AreNumbered(literals, cps, i, literalIndex, stage3, cpIndex)
    ensures cps[i] in literals
    ensures var literal := literals[cps[i]]; literal !in literalIndex ==>
      if |stage3| > MAX_U16 then |literals.Values| > MAX_U16
      else AreNumbered(literals, cps, i, literalIndex[literal := |stage3|], stage3 + [literal], cpIndex)
  {
    hide Numbers, Enumerates, Covered, Indexes;
    EnumeratesAt(cps, literals.Keys, i);
    var literal := literals[cps[i]];
    if literal !in literalIndex {
      if |stage3| > MAX_U16 {
        OneTooMany(literalIndex, stage3, literals.Values, literal);
      } else {
        NumbersOneMore(literalIndex, stage3, literal);
        IndexesOneMoreLiteral(literals, literalIndex, cpIndex, literal, |stage3|);
        KeysGrow(literalIndex, literals.Values, literal, |stage3|);
      }
    }
  }

  lemma OneMoreNumbered(literals: map<nat, string>, cps: seq<nat>, i: nat, literalIndex: map<string, nat>,
                        stage3: seq<string>, cpIndex: map<nat, nat>)
    requires i < |cps| && cps[i] in literals && literals[cps[i]] in literalIndex
    requires AreNumbered(literals, cps, i, literalIndex, stage3, cpIndex)
    ensures AreNumbered(literals, cps, i + 1, literalIndex, stage3, cpIndex[cps[i] := literalIndex[literals[cps[i]]]])
  {
    hide Numbers, Enumerates, Covered, Indexes;
    var cp := cps[i];
    IndexesOneMore(literals, literalIndex, cpIndex, cp);
    CoveredOneMore(cps, i, cpIndex, literalIndex[literals[cp]]);
    KeysGrow(cpIndex, literals.Keys, cp, literalIndex[literals[cp]]);
  }

  lemma AllNumbered(literals: map<nat, string>, cps: seq<nat>, literalIndex: map<string, nat>, stage3: seq<string>,
                    cpIndex: map<nat, nat>)
    requires Enumerates(cps, literals.Keys)
    requires AreNumbered(literals, cps, |cps|, literalIndex, stage3, cpIndex)
    ensures cpIndex.Keys == literals.Keys && literalIndex.Keys == literals.Values
    ensures |stage3| == 1 + |literals.Values| && |literals.Values| <= MAX_U16
    ensures Numbers(literalIndex, stage3) && Indexes(literals, literalIndex, cpIndex)
  {
    hide Numbers;
    NumbersSize(literalIndex, stage3);
    forall l | l in literals.Values ensures l in literalIndex {
      var cp :| cp in literals && literals[cp] == l;
      assert cp in cps;
    }
  }

  lemma IndexesOneMore(literals: map<nat, string>, literalIndex: map<string, nat>, cpIndex: map<nat, nat>, cp: nat)
    requires Indexes(literals, literalIndex, cpIndex) && cp in literals && literals[cp] in literalIndex
    ensures Indexes(literals, literalIndex, cpIndex[cp := literalIndex[literals[cp]]])
  {}

  // ----- Pages -----

  function PageNumber(cp: nat): nat { cp / BLOCK_SIZE }
  function Low(cp: nat): nat { cp % BLOCK_SIZE }
  function Codepoint(page: nat, low: nat): nat { page * BLOCK_SIZE + low }

  lemma CodepointHere(cp: nat)
    ensures Low(cp) < BLOCK_SIZE && Codepoint(PageNumber(cp), Low(cp)) == cp
  {}

  lemma CodepointThere(page: nat, low: nat)
    requires low < BLOCK_SIZE
    ensures PageNumber(Codepoint(page, low)) == page && Low(Codepoint(page, low)) == low
  {}

  /** The codepoints of sofar, and no others, are filed under their page and their place in it. */
  ghost predicate Filed(pages: map<nat, map<nat, nat>>, sofar: map<nat, nat>) {
    forall page: nat, low: nat {:trigger HasEntry(pages, page, low)} ::
      && (HasEntry(pages, page, low) <==> low < BLOCK_SIZE && Codepoint(page, low) in sofar)
      && (HasEntry(pages, page, low) ==> pages[page][low] == sofar[Codepoint(page, low)])
  }

  predicate HasEntry(pages: map<nat, map<nat, nat>>, page: nat, low: nat) {
    page in pages && low in pages[page]
  }

  function FileAway(pages: map<nat, map<nat, nat>>, page: nat, low: nat, idx: nat): (r: map<nat, map<nat, nat>>)
    ensures forall p: nat, l: nat :: HasEntry(r, p, l) <==> HasEntry(pages, p, l) || (p == page && l == low)
    ensures forall p: nat, l: nat :: HasEntry(r, p, l) ==>
      r[p][l] == if p == page && l == low then idx else if HasEntry(pages, p, l) then pages[p][l] else 0
  {
    var lows := if page in pages then pages[page] else map[];
    pages[page := lows[low := idx]]
  }

  lemma FiledOneMore(pages: map<nat, map<nat, nat>>, sofar: map<nat, nat>, cp: nat, idx: nat)
    requires Filed(pages, sofar)
    ensures Filed(FileAway(pages, PageNumber(cp), Low(cp), idx), sofar[cp := idx])
  {
    hide PageNumber, Low, Codepoint, FileAway;
    var pages', sofar' := FileAway(pages, PageNumber(cp), Low(cp), idx), sofar[cp := idx];
    CodepointHere(cp);
    forall page: nat, low: nat
      ensures HasEntry(pages', page, low) <==> low < BLOCK_SIZE && Codepoint(page, low) in sofar'
      ensures HasEntry(pages', page, low) ==> pages'[page][low] == sofar'[Codepoint(page, low)]
    {
      assert HasEntry(pages, page, low) <==> low < BLOCK_SIZE && Codepoint(page, low) in sofar;
      if low < BLOCK_SIZE { CodepointThere(page, low); }
    }
  }

  method BuildPages(cps: seq<nat>, cpIndex: map<nat, nat>) returns (r: Result<map<nat, map<nat, nat>>, Error>)
    requires Enumerates(cps, cpIndex.Keys)
    ensures r.Err? ==> r.error == CodepointTooLarge
    ensures r.Ok? <==> forall cp :: cp in cpIndex ==> cp <= MAX_U21
    ensures r.Ok? ==> Filed(r.value, cpIndex)
  {
    hide Filed, FileAway, PageNumber, Low;
    var pages: map<nat, map<nat, nat>> := map[];
    ghost var sofar: map<nat, nat> := map[];
    FiledStart();
    var i := 0;
    while i < |cps|
      invariant 0 <= i <= |cps|
      invariant forall j :: 0 <= j < i ==> cps[j] in sofar && cps[j] <= MAX_U21
      invariant sofar.Keys <= cpIndex.Keys && forall cp :: cp in sofar ==> sofar[cp] == cpIndex[cp]
      invariant Filed(pages, sofar)
    {
      var cp := cps[i];
      EnumeratesAt(cps, cpIndex.Keys, i);
      if cp > MAX_U21 { return Err(CodepointTooLarge); }
      FiledOneMore(pages, sofar, cp, cpIndex[cp]);
      pages := FileAway(pages, PageNumber(cp), Low(cp), cpIndex[cp]);
      sofar := sofar[cp := cpIndex[cp]];
      i := i + 1;
    }
    assert sofar == cpIndex;
    return Ok(pages);
  }

  lemma FiledStart()
    ensures Filed(map[], map[])
  {}

  // ----- Blocks -----

  /** The index of a literal that may be missing. */
  function IndexOf(literal: Option<string>, literalIndex: map<string, nat>): nat {
    if literal.Some? && literal.value in literalIndex then literalIndex[literal.value] else 0
  }

  ghost function BlockOf(page: Page, literalIndex: map<string, nat>): (b: seq<nat>)
    ensures |b| == |page| && forall low :: 0 <= low < |page| ==> b[low] == IndexOf(page[low], literalIndex)
  {
    seq(|page|, low requires 0 <= low < |page| => IndexOf(page[low], literalIndex))
  }

  ghost predicate Known(page: Page, literalIndex: map<string, nat>) {
    |page| == BLOCK_SIZE && forall low :: 0 <= low < |page| && page[low].Some? ==> page[low].value in literalIndex
  }

  lemma BlockIdentifiesPage(p: Page, q: Page, literalIndex: map<string, nat>, stage3: seq<string>)
    requires Numbers(literalIndex, stage3) && Known(p, literalIndex) && Known(q, literalIndex)
    ensures BlockOf(p, literalIndex) == BlockOf(q, literalIndex) <==> p == q
  {
    var b, c := BlockOf(p, literalIndex), BlockOf(q, literalIndex);
    if b == c {
      forall low | 0 <= low < BLOCK_SIZE ensures p[low] == q[low] {
        assert b[low] == IndexOf(p[low], literalIndex) && c[low] == IndexOf(q[low], literalIndex);
      }
    }
  }

  method FillBlock(lows: map<nat, nat>) returns (block: seq<nat>)
    requires forall low :: low in lows ==> low < BLOCK_SIZE
    ensures |block| == BLOCK_SIZE
    ensures forall low :: 0 <= low < BLOCK_SIZE ==> block[low] == if low in lows then lows[low] else 0
  {
    block := seq(BLOCK_SIZE, _ => 0);
    var rest := lows.Keys;
    while rest != {}
      invariant rest <= lows.Keys && |block| == BLOCK_SIZE
      invariant forall low :: 0 <= low < BLOCK_SIZE ==>
        block[low] == if low in lows && low !in rest then lows[low] else 0
      decreases |rest|
    {
      var low :| low in rest;
      block := block[low := lows[low]];
      rest := rest - {low};
    }
  }

  /** The block a page's entries fill is the one its literals ask for. */
  lemma FilledBlock(literals: map<nat, string>, literalIndex: map<string, nat>,
                    cpIndex: map<nat, nat>, pages: map<nat, map<nat, nat>>, page: nat, block: seq<nat>)
    requires Indexes(literals, literalIndex, cpIndex)
    requires cpIndex.Keys == literals.Keys && Filed(pages, cpIndex)
    requires |block| == BLOCK_SIZE
    requires forall low :: 0 <= low < BLOCK_SIZE ==>
      block[low] == if HasEntry(pages, page, low) then pages[page][low] else 0
    ensures Known(PageOf(literals, page), literalIndex)
    ensures block == BlockOf(PageOf(literals, page), literalIndex)
    ensures PageOf(literals, page) == NullPage() <==> page !in pages || pages[page] == map[]
  {
    hide Indexes, Filed, OptionalLiteral, PageOf, NullPage, BlockOf, IndexOf;
    var p := PageOf(literals, page);
    forall low: nat | low < BLOCK_SIZE
      ensures p[low].Some? <==> HasEntry(pages, page, low)
      ensures p[low].Some? ==> p[low].value in literalIndex
      ensures block[low] == IndexOf(p[low], literalIndex)
    {
      FiledEntry(literals, literalIndex, cpIndex, pages, page, low);
    }
    FiledLow(pages, cpIndex, page);
    if page in pages && pages[page] != map[] {
      var low :| low in pages[page];
      assert HasEntry(pages, page, low);
      assert p[low].Some?;
    } else {
      assert p == NullPage();
    }
  }

  lemma FiledLow(pages: map<nat, map<nat, nat>>, cpIndex: map<nat, nat>, page: nat)
    requires Filed(pages, cpIndex)
    ensures forall low: nat :: HasEntry(pages, page, low) ==> low < BLOCK_SIZE
  {}

  lemma CodepointIs(page: nat, low: nat)
    ensures Codepoint(page, low) == page * BLOCK_SIZE + low
  {}

  lemma IndexesAt(literals: map<nat, string>, literalIndex: map<string, nat>, cpIndex: map<nat, nat>, cp: nat)
    requires Indexes(literals, literalIndex, cpIndex) && cp in cpIndex
    ensures cp in literals && literals[cp] in literalIndex && cpIndex[cp] == literalIndex[literals[cp]]
  {}

  lemma FiledEntry(literals: map<nat, string>, literalIndex: map<string, nat>,
                   cpIndex: map<nat, nat>, pages: map<nat, map<nat, nat>>, page: nat, low: nat)
    requires low < BLOCK_SIZE && Indexes(literals, literalIndex, cpIndex)
    requires cpIndex.Keys == literals.Keys && Filed(pages, cpIndex)
    ensures var l := OptionalLiteral(literals, page * BLOCK_SIZE + low);
      && (l.Some? <==> HasEntry(pages, page, low))
      && (l.Some? ==> l.value in literalIndex)
      && IndexOf(l, literalIndex) == if HasEntry(pages, page, low) then pages[page][low] else 0
  {
    hide Indexes, Codepoint;
    var cp := Codepoint(page, low);
    CodepointIs(page, low);
    assert cp in literals <==> cp in cpIndex;
    if cp in cpIndex { IndexesAt(literals, literalIndex, cpIndex, cp); }
  }

  // ----- Stages 1 and 2 -----

  /** The different pages met so far. */
  ghost predicate Collected(kinds: seq<Page>, literals: map<nat, string>, pages: nat) {
    && |kinds| >= 1 && kinds[0] == NullPage() && Distinct(kinds)
    && forall p :: p in kinds <==> p in Kinds(literals, pages)
  }

  /** Stage 2 holds their blocks, and blockOffset knows where. */
  ghost predicate Stored(kinds: seq<Page>, stage2: seq<nat>, blockOffset: map<seq<nat>, nat>,
                         literalIndex: map<string, nat>) {
    && |stage2| == BLOCK_SIZE * |kinds|
    && (forall k :: 0 <= k < |kinds| ==>
          && Known(kinds[k], literalIndex)
          && Block(stage2, k) == BlockOf(kinds[k], literalIndex)
          && BlockOf(kinds[k], literalIndex) in blockOffset)
    && (forall b :: b in blockOffset ==>
          && blockOffset[b] % BLOCK_SIZE == 0 && blockOffset[b] / BLOCK_SIZE < |kinds|
          && b == BlockOf(kinds[blockOffset[b] / BLOCK_SIZE], literalIndex))
  }

  /** Stage 1 sends every page to its block. */
  ghost predicate Placed(stage1: seq<nat>, kinds: seq<Page>, literals: map<nat, string>) {
    forall p :: 0 <= p < |stage1| ==>
      && stage1[p] % BLOCK_SIZE == 0 && stage1[p] / BLOCK_SIZE < |kinds|
      && kinds[stage1[p] / BLOCK_SIZE] == PageOf(literals, p)
  }

  lemma KindsOneMore(literals: map<nat, string>, pages: nat)
    ensures Kinds(literals, pages + 1) == Kinds(literals, pages) + {PageOf(literals, pages)}
  {}

  lemma KindsGrow(literals: map<nat, string>, pages: nat, more: nat)
    requires pages <= more
    ensures Kinds(literals, pages) <= Kinds(literals, more)
  {}

  lemma {:induction false} CollectedSize(kinds: seq<Page>, literals: map<nat, string>, pages: nat)
    requires Collected(kinds, literals, pages)
    ensures |kinds| == |Kinds(literals, pages)|
  {
    DistinctSize(kinds);
    assert (set x | x in kinds) == Kinds(literals, pages);
  }

  lemma {:induction false} DistinctSize<T>(s: seq<T>)
    requires Distinct(s)
    ensures |set x | x in s| == |s|
  {
    if s != [] {
      var t, x := s[..|s| - 1], s[|s| - 1];
      DistinctSize(t);
      assert (set y | y in s) == (set y | y in t) + {x};
    } else {
      assert (set x | x in s) == {};
    }
  }

  lemma FoundBlock(kinds: seq<Page>, stage2: seq<nat>, blockOffset: map<seq<nat>, nat>, literalIndex: map<string, nat>,
                   stage3: seq<string>, page: Page)
    requires Stored(kinds, stage2, blockOffset, literalIndex)
    requires Numbers(literalIndex, stage3) && Known(page, literalIndex)
    ensures BlockOf(page, literalIndex) in blockOffset <==> page in kinds
    ensures BlockOf(page, literalIndex) in blockOffset ==>
      var offset := blockOffset[BlockOf(page, literalIndex)];
      offset % BLOCK_SIZE == 0 && offset / BLOCK_SIZE < |kinds| && kinds[offset / BLOCK_SIZE] == page
  {
    hide Numbers, Known;
    var b := BlockOf(page, literalIndex);
    if b in blockOffset {
      var k := blockOffset[b] / BLOCK_SIZE;
      BlockIdentifiesPage(page, kinds[k], literalIndex, stage3);
    }
  }

  lemma StoredOneMore(kinds: seq<Page>, stage2: seq<nat>, blockOffset: map<seq<nat>, nat>,
                      literalIndex: map<string, nat>,
                      page: Page)
    requires Stored(kinds, stage2, blockOffset, literalIndex)
    requires Known(page, literalIndex) && BlockOf(page, literalIndex) !in blockOffset
    ensures var block := BlockOf(page, literalIndex);
      Stored(kinds + [page], stage2 + block, blockOffset[block := |stage2|], literalIndex)
  {
    hide Known;
    var block := BlockOf(page, literalIndex);
    var kinds', stage2', blockOffset' := kinds + [page], stage2 + block, blockOffset[block := |stage2|];
    assert |block| == BLOCK_SIZE by { KnownSize(page, literalIndex); }
    forall k | 0 <= k < |kinds'|
      ensures Known(kinds'[k], literalIndex) && Block(stage2', k) == BlockOf(kinds'[k], literalIndex)
      ensures BlockOf(kinds'[k], literalIndex) in blockOffset'
    {
      if k < |kinds| {
        assert Block(stage2', k) == Block(stage2, k);
      } else {
        assert Block(stage2', k) == block;
      }
    }
    forall b | b in blockOffset' && b != block
      ensures kinds'[blockOffset'[b] / BLOCK_SIZE] == kinds[blockOffset[b] / BLOCK_SIZE]
    {}
  }

  lemma KnownSize(page: Page, literalIndex: map<string, nat>)
    requires Known(page, literalIndex)
    ensures |page| == BLOCK_SIZE
  {}

  lemma CollectedStart(literals: map<nat, string>)
    ensures Collected([NullPage()], literals, 0)
  {}

  lemma CollectedKnown(kinds: seq<Page>, literals: map<nat, string>, pages: nat)
    requires Collected(kinds, literals, pages) && PageOf(literals, pages) in kinds
    ensures Collected(kinds, literals, pages + 1)
  {
    KindsOneMore(literals, pages);
  }

  lemma CollectedOneMore(kinds: seq<Page>, literals: map<nat, string>, pages: nat)
    requires Collected(kinds, literals, pages) && PageOf(literals, pages) !in kinds
    ensures Collected(kinds + [PageOf(literals, pages)], literals, pages + 1)
  {
    hide PageOf, NullPage;
    KindsOneMore(literals, pages);
    var kinds' := kinds + [PageOf(literals, pages)];
    assert forall p :: p in kinds' <==> p in kinds || p == PageOf(literals, pages);
  }

  lemma StoredStart(literalIndex: map<string, nat>, nullBlock: seq<nat>)
    requires nullBlock == seq(BLOCK_SIZE, _ => 0)
    ensures Stored([NullPage()], nullBlock, map[nullBlock := 0], literalIndex)
  {
    assert nullBlock == BlockOf(NullPage(), literalIndex);
    assert Block(nullBlock, 0) == nullBlock;
  }

  lemma StoredSize(kinds: seq<Page>, stage2: seq<nat>, blockOffset: map<seq<nat>, nat>, literalIndex: map<string, nat>)
    requires Stored(kinds, stage2, blockOffset, literalIndex)
    ensures |stage2| == BLOCK_SIZE * |kinds|
  {}

  lemma PlacedOneMore(stage1: seq<nat>, kinds: seq<Page>, literals: map<nat, string>, offset: nat, more: seq<Page>)
    requires Placed(stage1, kinds, literals) && kinds <= more
    requires offset % BLOCK_SIZE == 0 && offset / BLOCK_SIZE < |more|
    requires more[offset / BLOCK_SIZE] == PageOf(literals, |stage1|)
    ensures Placed(stage1 + [offset], more, literals)
  {}

  /** The number of different pages is bounded by what 16 bits can address. */
  ghost predicate FitsStage2(literals: map<nat, string>) {
    256 * |Kinds(literals, 8192)| <= 65535
  }

  lemma TooManyKinds(kinds: seq<Page>, literals: map<nat, string>, pages: nat)
    requires Collected(kinds, literals, pages) && pages <= STAGE1_LEN
    ensures |kinds| <= |Kinds(literals, STAGE1_LEN)|
    ensures pages == STAGE1_LEN ==> |kinds| == |Kinds(literals, STAGE1_LEN)|
  {
    hide Kinds, Collected;
    CollectedSize(kinds, literals, pages);
    KindsGrow(literals, pages, STAGE1_LEN);
    SubsetSize(Kinds(literals, pages), Kinds(literals, STAGE1_LEN));
  }

  /** The third loop: stages 1 and 2, with the different pages of the block at every multiple of 256. */
  method BuildStages(literals: map<nat, string>, ghost literalIndex: map<string, nat>, ghost stage3: seq<string>,
                     ghost cpIndex: map<nat, nat>, pages: map<nat, map<nat, nat>>)
    returns (r: Result<(seq<nat>, seq<nat>), Error>, ghost kinds: seq<Page>, ghost blockOffset': map<seq<nat>, nat>)
    requires Numbers(literalIndex, stage3) && Indexes(literals, literalIndex, cpIndex)
    requires cpIndex.Keys == literals.Keys && Filed(pages, cpIndex)
    ensures r.Err? ==> r.error == Stage2TooLong
    ensures r.Ok? <==> FitsStage2(literals)
    ensures r.Ok? ==>
      && |r.value.0| == STAGE1_LEN
      && Collected(kinds, literals, STAGE1_LEN)
      && Stored(kinds, r.value.1, blockOffset', literalIndex)
      && Placed(r.value.0, kinds, literals)
      && OffsetsInOrder(r.value.0)
  {
    hide OffsetsInOrder, Numbers, Indexes, Filed, Collected, Stored, Placed;
    hide Known, PageOf, NullPage, BlockOf, HasEntry, Kinds;
    var nullBlock: seq<nat> := seq(BLOCK_SIZE, _ => 0);
    var blockOffset: map<seq<nat>, nat> := map[nullBlock := 0];
    var stage2 := nullBlock;
    var stage1: seq<nat> := [];
    kinds := [NullPage()];
    CollectedStart(literals);
    StoredStart(literalIndex, nullBlock);
    PlacedStart(kinds, literals);
    assert OffsetsInOrder(stage1) by { NoOffsets(); }
    while |stage1| < STAGE1_LEN
      invariant |stage1| <= STAGE1_LEN
      invariant Collected(kinds, literals, |stage1|)
      invariant Stored(kinds, stage2, blockOffset, literalIndex)
      invariant Placed(stage1, kinds, literals)
      invariant OffsetsInOrder(stage1)
    {
      var page := |stage1|;
      if page !in pages || pages[page] == map[] {
        NothingThere(literals, literalIndex, cpIndex, pages, page);
        FirstIsNull(kinds, literals, page);
        CollectedKnown(kinds, literals, page);
        PlacedOneMore(stage1, kinds, literals, 0, kinds);
        NextOffset(stage1, 0);
        stage1 := stage1 + [0];
      } else {
        FiledLow(pages, cpIndex, page);
        AreLow(pages, page);
        var block := FillBlock(pages[page]);
        Entries(pages, page, block);
        FilledBlock(literals, literalIndex, cpIndex, pages, page, block);
        FoundBlock(kinds, stage2, blockOffset, literalIndex, stage3, PageOf(literals, page));
        var offset := |stage2|;
        if block in blockOffset {
          offset := blockOffset[block];
          OffsetIsUsed(stage1, literals, kinds, offset);
          CollectedKnown(kinds, literals, page);
          PlacedOneMore(stage1, kinds, literals, offset, kinds);
        } else {
          StoredSize(kinds, stage2, blockOffset, literalIndex);
          OffsetsAreLess(stage1, literals, kinds);
          if offset > MAX_U16 {
            TooManyKinds(kinds, literals, page);
            r, blockOffset' := Err(Stage2TooLong), blockOffset;
            return;
          }
          CollectedOneMore(kinds, literals, page);
          StoredOneMore(kinds, stage2, blockOffset, literalIndex, PageOf(literals, page));
          PlacedOneMore(stage1, kinds, literals, offset, kinds + [PageOf(literals, page)]);
          kinds := kinds + [PageOf(literals, page)];
          blockOffset := blockOffset[block := offset];
          stage2 := stage2 + block;
        }
        NextOffset(stage1, offset);
        stage1 := stage1 + [offset];
      }
    }
    blockOffset' := blockOffset;
    TooManyKinds(kinds, literals, STAGE1_LEN);
    StoredSize(kinds, stage2, blockOffset, literalIndex);
    r := if |stage2| > MAX_U16 then Err(Stage2TooLong) else Ok((stage1, stage2));
  }

  /** A block that a page is the first to use lies behind all that pages before it use. */
  ghost predicate OffsetsInOrder(stage1: seq<nat>) {
    forall p :: 0 <= p < |stage1| ==>
      stage1[p] == 0 || stage1[p] in stage1[..p] || forall q :: 0 <= q < p ==> stage1[q] < stage1[p]
  }

  lemma NoOffsets()
    ensures OffsetsInOrder([])
  {}

  lemma NextOffset(stage1: seq<nat>, offset: nat)
    requires OffsetsInOrder(stage1)
    requires offset == 0 || offset in stage1 || forall q :: 0 <= q < |stage1| ==> stage1[q] < offset
    ensures OffsetsInOrder(stage1 + [offset])
  {
    var more := stage1 + [offset];
    assert forall p :: 0 <= p <= |stage1| ==> more[..p] == stage1[..p];
    assert stage1[..|stage1|] == stage1;
  }

  lemma OffsetIsUsed(stage1: seq<nat>, literals: map<nat, string>, kinds: seq<Page>, offset: nat)
    requires Placed(stage1, kinds, literals) && Collected(kinds, literals, |stage1|)
    requires offset % BLOCK_SIZE == 0 && offset / BLOCK_SIZE < |kinds|
    ensures offset == 0 || offset in stage1
  {
    hide Placed, Collected;
    if offset > 0 { BlockIsUsed(stage1, literals, kinds, offset / BLOCK_SIZE); }
  }

  lemma OffsetsAreLess(stage1: seq<nat>, literals: map<nat, string>, kinds: seq<Page>)
    requires Placed(stage1, kinds, literals)
    ensures forall q :: 0 <= q < |stage1| ==> stage1[q] < BLOCK_SIZE * |kinds|
  {
    hide PageOf;
  }

  lemma PlacedStart(kinds: seq<Page>, literals: map<nat, string>)
    ensures Placed([], kinds, literals)
  {}

  lemma FirstIsNull(kinds: seq<Page>, literals: map<nat, string>, pages: nat)
    requires Collected(kinds, literals, pages)
    ensures |kinds| >= 1 && kinds[0] == NullPage() && NullPage() in kinds
  {}

  lemma NothingThere(literals: map<nat, string>, literalIndex: map<string, nat>,
                     cpIndex: map<nat, nat>, pages: map<nat, map<nat, nat>>, page: nat)
    requires Indexes(literals, literalIndex, cpIndex) && cpIndex.Keys == literals.Keys && Filed(pages, cpIndex)
    requires page !in pages || pages[page] == map[]
    ensures PageOf(literals, page) == NullPage()
  {
    hide Indexes, Filed, PageOf, NullPage, BlockOf;
    FilledBlock(literals, literalIndex, cpIndex, pages, page, seq(BLOCK_SIZE, _ => 0));
  }

  lemma AreLow(pages: map<nat, map<nat, nat>>, page: nat)
    requires page in pages
    requires forall low: nat :: HasEntry(pages, page, low) ==> low < BLOCK_SIZE
    ensures forall low :: low in pages[page] ==> low < BLOCK_SIZE
  {
    forall low | low in pages[page] ensures low < BLOCK_SIZE { assert HasEntry(pages, page, low); }
  }

  lemma Entries(pages: map<nat, map<nat, nat>>, page: nat, block: seq<nat>)
    requires page in pages && |block| == BLOCK_SIZE
    requires forall low :: 0 <= low < BLOCK_SIZE ==> block[low] == if low in pages[page] then pages[page][low] else 0
    ensures forall low :: 0 <= low < BLOCK_SIZE ==>
      block[low] == if HasEntry(pages, page, low) then pages[page][low] else 0
  {}

  // ----- The table -----

  /** A codepoint's literal is found through its page's block and the literal's number. */
  lemma FindsLiteral(t: Tables, literals: map<nat, string>, literalIndex: map<string, nat>, kinds: seq<Page>,
                     blockOffset: map<seq<nat>, nat>, cp: nat)
    requires |t.stage1| == STAGE1_LEN && cp <= MAX_U21
    requires Numbers(literalIndex, t.stage3)
    requires Stored(kinds, t.stage2, blockOffset, literalIndex) && Placed(t.stage1, kinds, literals)
    ensures InBounds(t, cp) && Lookup(t, cp) == LiteralOf(literals, cp)
  {
    hide Numbers, PageOf, BlockOf, NullPage, IndexOf, Stored;
    var page, low := cp / BLOCK_SIZE, cp % BLOCK_SIZE;
    var k := t.stage1[page] / BLOCK_SIZE;
    StoredBlock(kinds, t.stage2, blockOffset, literalIndex, k, low);
    assert k * BLOCK_SIZE == t.stage1[page];
    assert kinds[k][low] == OptionalLiteral(literals, page * BLOCK_SIZE + low);
    assert kinds[k][low].Some? ==> kinds[k][low].value in literalIndex;
    NumberedLiteral(literals, literalIndex, t.stage3, cp);
  }

  lemma StoredBlock(kinds: seq<Page>, stage2: seq<nat>, blockOffset: map<seq<nat>, nat>, literalIndex: map<string, nat>,
                    k: nat, low: nat)
    requires Stored(kinds, stage2, blockOffset, literalIndex) && k < |kinds| && low < BLOCK_SIZE
    ensures Known(kinds[k], literalIndex) && k * BLOCK_SIZE + low < |stage2|
    ensures stage2[k * BLOCK_SIZE + low] == IndexOf(kinds[k][low], literalIndex)
  {
    hide Known, IndexOf;
    KnownSize(kinds[k], literalIndex);
    assert Block(stage2, k)[low] == stage2[k * BLOCK_SIZE + low];
  }

  lemma FindsLiterals(t: Tables, literals: map<nat, string>, literalIndex: map<string, nat>, kinds: seq<Page>,
                      blockOffset: map<seq<nat>, nat>)
    requires |t.stage1| == STAGE1_LEN && |t.stage2| <= MAX_U16 && |t.stage3| <= MAX_U16 + 1
    requires Numbers(literalIndex, t.stage3) && literalIndex.Keys == literals.Values
    requires Stored(kinds, t.stage2, blockOffset, literalIndex) && Placed(t.stage1, kinds, literals)
    ensures IsMap(t, literals)
  {
    hide Numbers, Stored, Placed, LiteralOf, InBounds;
    forall cp: nat | cp <= MAX_U21 ensures InBounds(t, cp) {
      FindsLiteral(t, literals, literalIndex, kinds, blockOffset, cp);
    }
    forall cp: nat | cp <= MAX_U21 && InBounds(t, cp) ensures Lookup(t, cp) == LiteralOf(literals, cp) {
      FindsLiteral(t, literals, literalIndex, kinds, blockOffset, cp);
    }
  }

  lemma NumberedLiteral(literals: map<nat, string>, literalIndex: map<string, nat>, stage3: seq<string>, cp: nat)
    requires Numbers(literalIndex, stage3)
    requires cp in literals ==> literals[cp] in literalIndex
    ensures var index := IndexOf(OptionalLiteral(literals, cp), literalIndex);
      index < |stage3| && stage3[index] == LiteralOf(literals, cp)
  {}

  lemma StoresOnce(t: Tables, literals: map<nat, string>, literalIndex: map<string, nat>, kinds: seq<Page>,
                   blockOffset: map<seq<nat>, nat>)
    requires |t.stage1| == STAGE1_LEN
    requires Numbers(literalIndex, t.stage3) && literalIndex.Keys == literals.Values
    requires Collected(kinds, literals, STAGE1_LEN)
    requires Stored(kinds, t.stage2, blockOffset, literalIndex) && Placed(t.stage1, kinds, literals)
    ensures IsDeduplicated(t, literals)
  {
    hide PageOf, BlockOf, NullPage, IndexOf, OptionalLiteral, Known, Kinds;
    CollectedSize(kinds, literals, STAGE1_LEN);
    NumbersSize(literalIndex, t.stage3);
    forall j, k | 0 <= j < k && (k + 1) * BLOCK_SIZE <= |t.stage2|
      ensures Block(t.stage2, j) != Block(t.stage2, k)
    {
      BlockIdentifiesPage(kinds[j], kinds[k], literalIndex, t.stage3);
    }
    DistinctLiterals(literalIndex, t.stage3);
  }

  lemma DistinctLiterals(literalIndex: map<string, nat>, stage3: seq<string>)
    requires Numbers(literalIndex, stage3)
    ensures Distinct(stage3[1..])
  {}

  /** The table is built exactly when the literals, the codepoints and the pages fit, which are found out in
      this order; it then is the map, and stores nothing twice. */
  method BuildLut(literals: map<nat, string>) returns (r: Result<Tables, Error>)
    ensures r == Err(Stage3TooLong) <==> |literals.Values| > 65535
    ensures r == Err(CodepointTooLarge) <==>
      |literals.Values| <= 65535 && exists cp :: cp in literals && cp > 0x1FFFFF
    ensures r == Err(Stage2TooLong) <==>
      |literals.Values| <= 65535 && (forall cp :: cp in literals ==> cp <= 0x1FFFFF) && !FitsStage2(literals)
    ensures r.Ok? ==> IsMap(r.value, literals) && IsDeduplicated(r.value, literals)
    ensures r.Ok? ==> ServesAll(r.value, literals) && SharesAll(r.value, literals) && InOrder(r.value, literals)
  {
    hide Numbers, Indexes, Filed, Collected, Stored, Placed, PageOf, NullPage, IsDeduplicated, InBounds,
         Enumerates, FitsStage2, Lookup, LiteralOf, ServesAll, SharesAll, InOrder, MetInOrder, OffsetsInOrder;
    var cps := Sorted(literals.Keys);
    var stage3 := BuildStage3(literals, cps);
    if stage3.Err? { return Err(Stage3TooLong); }
    var cpIndex := stage3.value.1;
    ghost var literalIndex := stage3.value.2;
    var pages := BuildPages(cps, cpIndex);
    if pages.Err? { return Err(CodepointTooLarge); }
    var stages, kinds, blockOffset := BuildStages(literals, literalIndex, stage3.value.0, cpIndex, pages.value);
    if stages.Err? { return Err(Stage2TooLong); }
    var t := Tables(stages.value.0, stages.value.1, stage3.value.0);
    StoredSize(kinds, t.stage2, blockOffset, literalIndex);
    NumbersSize(literalIndex, t.stage3);
    FitsIs(literals, kinds);
    FindsLiterals(t, literals, literalIndex, kinds, blockOffset);
    StoresOnce(t, literals, literalIndex, kinds, blockOffset);
    MapServesAll(t, literals);
    DeduplicatedSharesAll(t, literals, kinds);
    MetIsNeeded(t, literals, cps, literalIndex);
    return Ok(t);
  }

  lemma FitsIs(literals: map<nat, string>, kinds: seq<Page>)
    requires Collected(kinds, literals, STAGE1_LEN) && FitsStage2(literals)
    ensures BLOCK_SIZE * |kinds| <= MAX_U16
  {
    hide Collected, Kinds;
    TooManyKinds(kinds, literals, STAGE1_LEN);
  }

  lemma KeysGrow<K, V>(m: map<K, V>, all: set<K>, k: K, v: V)
    requires m.Keys <= all && k in all
    ensures m[k := v].Keys <= all
  {}

  lemma OneTooMany(literalIndex: map<string, nat>, stage3: seq<string>, all: set<string>, literal: string)
    requires Numbers(literalIndex, stage3)
    requires literalIndex.Keys <= all && literal in all && literal !in literalIndex
    ensures |stage3| <= |all|
  {
    SubsetSize(literalIndex.Keys + {literal}, all);
  }

  lemma SubsetSize<T>(a: set<T>, b: set<T>)
    requires a <= b
    ensures |a| <= |b|
  {
    assert b == a + (b - a);
  }
}
